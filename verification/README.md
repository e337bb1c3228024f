# Library circulation ledger: a Dafny model

This project models the circulation core of a small library database application. The
application is a menu program over an SQLite database. It lends copies, takes them back,
records donated copies, seats people at events, signs up volunteers and looks for a
librarian at the front desk. Each of these operations is a short, fixed sequence of
INSERT and UPDATE statements, guarded by at most one condition. The model treats each
one as a transition of the database tables:

- Item: catalogue entries, keyed by ISBN.
- Inventory: copies, with an `Available` flag.
- Activity: loans, with an optional return date.
- Member, Room, Personnel, Event and Fine.

The foreign keys are those of the schema the unit tests create.

Modules:

- `Schema` (schema.dfy): one datatype per table row and the database value `Db`. It also
  has the foreign keys as a predicate, and `NextRowId`, the key SQLite gives a row that is
  inserted without one: the largest key in use plus one.
- `Like` (like.dfy): the `LIKE '%pattern%'` test used by `ask_for_help`. SQLite compares
  ASCII letters regardless of case, and so does the model.
- `Ledger` (ledger.dfy): each operation as a function from the database before to the
  database after, plus what the operation reports. These functions are the specification.
  The lemmas beside them state what the operations keep, what they add and what they leave
  untouched.
- `LibraryApp` (library.dfy): class `Library`. Its fields are the tables, held as maps.
  It has one method per operation, and each method updates the tables statement by
  statement, in the program's order. Each method is proved to have exactly the effect of
  its `Ledger` function.
- `Availability` (availability.dfy): whether a copy's `Available` flag agrees with its
  loans. The program does not keep this agreement (see Findings). Corrected versions of
  borrow and return do keep it.
- `Scenarios` (scenarios.dfy): the unit tests' sample database, and the outcome of each
  test's steps on it.

Conventions:

- The current date is a parameter `today`, counted as a day number.
- `PRAGMA foreign_keys` is the field `Db.foreignKeys`. The unit tests turn it on;
  `connect_db` leaves it off.
- A statement that fails a foreign-key check raises an exception. The program catches it,
  and the model has the operation change nothing.

The model follows the code as written, including where it lets the tables drift apart:

- `borrow_item` never reads `Available`. The unit test for borrowing
  (test_library_app.py:138-142, 171) expects a copy on loan to be refused.
- `return_item` restamps a loan that was already returned. Leaving such a loan alone is
  the model's own reading of the docstring "Return a borrowed item." (library_app.py:44).
- The schema has a Fine table (test_library_app.py:81-86), and nothing writes it.

## Model

| member | source | states |
|---|---|---|
| `Schema.NextRowId` | test_library_app.py:71-72 | a key given to a new row is not in use and is larger than every key in use; an empty table starts at 1, and otherwise the key just below it is in use (it is the largest key plus one) |
| `Like.LikeContains` | library_app.py:172 | `s LIKE '%p%'` holds exactly when `p` occurs somewhere in `s`, ASCII letters compared without case |
| `Ledger.SetAvailable` | library_app.py:37 | the UPDATE of Available changes only that copy's flag, keeps every copy id, and leaves a missing copy untouched |
| `Ledger.Borrow` | library_app.py:25-41 | the borrow fails, and then nothing changes, iff foreign keys are enforced and the copy or the member is missing; otherwise exactly one new loan is added under an unused id, with borrow date today, due date today + 14 and no return date; that copy becomes unavailable; no other loan, copy or table changes |
| `Ledger.Return` | library_app.py:43-58 | an unknown loan id changes nothing; otherwise that loan's return date becomes today and nothing else about it changes, the copy it references (if present) becomes available, and no other loan, copy or table changes |
| `Ledger.CatalogueIfAbsent` | library_app.py:69-81 | the Item table gains the ISBN; an existing entry is kept unchanged, and an absent one gets the supplied details |
| `Ledger.Donate` | library_app.py:60-95 | Item gains the ISBN only if it was absent, with the supplied details; exactly one new copy is added under an unused id, with that ISBN, available, the given shelf and condition, acquired today, Source "Donated"; existing copies and all other tables are unchanged |
| `Ledger.Register` | library_app.py:114-138 | an unknown event reports EventNotFound, a missing room reports RoomNotFound, and a full event reports FullyBooked; all three change nothing; Registered happens iff reservedSeats < maxCapacity, and then exactly that event's reservedSeats grows by 1 |
| `Ledger.Volunteer` | library_app.py:140-160 | the insert fails, changing nothing, iff foreign keys are enforced and the room is missing; otherwise exactly one Personnel row is added under an unused id: Position "Volunteer", start date today, salary 0, the given room; no names are stored |
| `Ledger.BorrowKeepsForeignKeys` | test_library_app.py:71-80 | with foreign keys enforced, a borrow never leaves a loan that references a missing copy or member |
| `Ledger.ReturnKeepsForeignKeys` | library_app.py:49-54 | a return keeps every foreign key satisfied |
| `Ledger.DonateKeepsForeignKeys` | library_app.py:78-91 | a donation keeps every foreign key satisfied: the new copy's ISBN is always catalogued |
| `Ledger.RegisterKeepsForeignKeys` | library_app.py:130 | a registration keeps every foreign key satisfied |
| `Ledger.VolunteerKeepsForeignKeys` | library_app.py:153-156 | with foreign keys enforced, a new volunteer's room always exists |
| `Ledger.ReturnTwiceSameDay` | library_app.py:49-55 | returning the same loan twice on one day gives the same state as returning it once |
| `Ledger.BorrowThenReturn` | library_app.py:25-58 | after a borrow, returning that loan closes it on the return day, keeps its due date at borrow day + 14, and leaves the copy available; a copy that was available before is restored exactly; other tables are unchanged |
| `Ledger.BorrowOpensOneLoan` | library_app.py:32-37 | a successful borrow adds exactly one open loan on the copy, whether or not the copy was available, and none on any other copy |
| `Ledger.DonateAddsOneCopy` | library_app.py:83-92 | a donation adds exactly one copy of the donated ISBN and none of any other ISBN |
| `Ledger.DonateTwiceKeepsItem` | library_app.py:69-81 | a second donation of an ISBN keeps the catalogue entry of the first and adds a different copy |
| `Ledger.RegisterKeepsSeatsWithinCapacity` | library_app.py:126-130 | if every event holds no more reservations than its room's capacity, registration keeps it so |
| `Ledger.RegisterTimesFillsUpTo` | library_app.py:122-134 | n registrations from s seats in a room of capacity cap end at min(s + n, cap) when s < cap, and at s otherwise; the event's other fields, every other event and every other table are unchanged |
| `Ledger.VolunteerIsNotLibrarian` | library_app.py:150 | the position "Volunteer" does not match '%Librarian%' |
| `Ledger.VolunteerKeepsHelpAnswer` | library_app.py:140-181 | signing up a volunteer never changes whether ask_for_help finds a librarian in R001 |
| `LibraryApp.Library.BorrowItem` | library_app.py:25-41 | the loan INSERT, guarded by the foreign-key check, then the Available = 0 UPDATE, end in exactly `Ledger.Borrow`'s state and outcome |
| `LibraryApp.Library.ReturnItem` | library_app.py:43-58 | the returnDate UPDATE, the copy SELECT and the Available = 1 UPDATE end in exactly `Ledger.Return`'s state |
| `LibraryApp.Library.DonateItem` | library_app.py:60-95 | the Item check and insert, then the Inventory INSERT, end in exactly `Ledger.Donate`'s state; the result is the new copy id |
| `LibraryApp.Library.RegisterEvent` | library_app.py:114-138 | the event and room lookups and the guarded seat UPDATE end in exactly `Ledger.Register`'s state and outcome |
| `LibraryApp.Library.VolunteerFor` | library_app.py:140-160 | the Personnel INSERT, guarded by the foreign-key check, ends in exactly `Ledger.Volunteer`'s state and outcome |
| `LibraryApp.Library.AskForHelp` | library_app.py:162-181 | the answer is true iff some Personnel row has a Position LIKE '%Librarian%' and room 'R001'; nothing changes |
| `Availability.BorrowOfLentCopyBreaksCoherence` | library_app.py:32-37 | from a coherent database, an existing member borrowing a copy that is on loan succeeds, the copy then has exactly two open loans, and the database is no longer coherent |
| `Availability.ReturnOfClosedLoanBreaksCoherence` | library_app.py:49-54 | from a coherent database, returning an already-returned loan marks its copy available while another open loan of the same copy stays open, so the database is no longer coherent |
| `Availability.BorrowIfAvailable` | library_app.py:25-41 | the corrected borrow succeeds iff the copy exists, is available and (with foreign keys on) the member exists; it then equals the program's borrow, and otherwise changes nothing |
| `Availability.ReturnIfOpen` | library_app.py:43-58 | the corrected return closes an open loan on `today` and makes its copy available, with every other loan, copy and table unchanged; a closed or unknown loan changes nothing |
| `Availability.ReturnIfOpenTwice` | library_app.py:43-58 | the corrected return is idempotent for any two days: returning a loan again changes nothing |
| `Availability.ReturnRestamps` | library_app.py:49 | as written, a second return overwrites the return date with the second day, so the state differs from a single return whenever the days differ |
| `Availability.BorrowIfAvailableKeepsCoherence` | library_app.py:32-37 | the corrected borrow keeps "available iff no open loan, at most one open loan per copy" |
| `Availability.ReturnIfOpenKeepsCoherence` | library_app.py:49-54 | the corrected return keeps the same agreement |
| `Availability.DonateKeepsCoherence` | library_app.py:83-92 | a donation keeps the agreement: the new copy is available and no loan is on it |
| `Scenarios.BorrowScenario` | test_library_app.py:143-171 | on the sample data, member 1 borrowing copy 1 creates loan 1 due 14 days later and makes the copy unavailable; member 2, who does not exist, is then refused, and copy 1 still has one loan |
| `Scenarios.ReturnScenario` | test_library_app.py:173-197 | returning open loan 1 stamps its return date and makes copy 1 available |
| `Scenarios.DonateScenario` | test_library_app.py:199-227 | donating a new ISBN catalogues it with the given details and adds copy 2, available and donated |
| `Scenarios.RegisterScenario` | test_library_app.py:240-270 | the first registration takes seat 11; at 30 of 30 the event is fully booked |
| `Scenarios.VolunteerScenario` | test_library_app.py:272-285 | volunteering for R001 adds Personnel row 2 as a volunteer in R001 |
| `Scenarios.AskForHelpScenario` | test_library_app.py:287-293 | the sample librarian in R001 is found |

## Left out

- Prompts and printed messages (`input()` and `print()`) are not modelled. Values that
  were typed in are parameters, and what was printed is the outcome value.
- `connect_db` and the `main` menu loop are not modelled: they are connection set-up and
  dispatch. `Library.Open` stands for an open connection over given tables.
- `find_item` and `find_event` are not modelled. They depend on `LIKE` matching with
  user-typed `%` and `_` wildcards.
- Every id is an integer. A copy, member or loan id typed as non-numeric text would be
  stored as text, and the model does not cover that.
- Dates are day numbers, not ISO strings. `today` is a parameter. `borrow_item` reads the
  clock twice; the model does not cover the two reads falling on different days.
- Columns are never NULL. A NULL `reservedSeats` or `maxCapacity` would raise a caught
  TypeError in `register_event`, and the model does not cover it.
- Keys are unbounded integers. Above the largest 64-bit rowid, SQLite picks a random
  unused key instead, and the model does not cover that.
- Salary and fine amounts are integers, not REAL. The only salary the program writes is
  the constant 0.
- The transaction left open when a statement fails after an earlier one succeeded is not
  modelled. This cannot happen for the modelled operations: a failed INSERT is always
  their first write.
- `donate_item` asks for the item's details only when the ISBN is absent. The model
  always takes the details and uses them only in that case. The Item INSERT sits outside
  the `try`, but it cannot fail: the ISBN is absent and Item has no foreign key.
- Computing or writing fines, and atomicity under concurrent callers, are not modelled.
  The program has neither. The availability check and the guard on returned loans exist
  only in the corrected definitions in `Availability`.

## Findings

| source | as written | input that shows it | evidently intended | confidence | as-written member | corrected member |
|---|---|---|---|---|---|---|
| library_app.py:32-37 | borrow inserts an open loan and clears Available without reading Available | copy 1 is on an open loan; member 2 exists and borrows copy 1; a second open loan on copy 1 is created | an unavailable copy is refused; the unit test at test_library_app.py:160-171 expects this; in it the second borrow is refused only because member 2 does not exist | medium, not executed | `Availability.BorrowOfLentCopyBreaksCoherence` | `Availability.BorrowIfAvailable` |
| library_app.py:49-54 | return stamps the loan and sets Available = 1 even when the loan was already returned | loan 1 on copy 1 was returned, and loan 2 on copy 1 is open; returning loan 1 again marks copy 1 available while loan 2 holds it | a loan already returned is left alone; this is the model's reading of the docstring "Return a borrowed item." (library_app.py:44), and no test covers it | low, not executed | `Availability.ReturnOfClosedLoanBreaksCoherence` | `Availability.ReturnIfOpen` |

The `LibraryApp.Library` methods keep the program's behaviour as written. The corrected
definitions, and the proofs that they keep `Availability.Coherent`, live in the
`Availability` module.
