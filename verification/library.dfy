/** The library application over an open database connection: the tables
    are fields the operations update statement by statement, and each
    operation is proved to have exactly the effect its Ledger function states. */
module LibraryApp {
  import opened Schema
  import Ledger

  class Library {
    /** `PRAGMA foreign_keys` of the connection. */
    const foreignKeys: bool
    var items: map<string, Item>
    var members: map<int, Member>
    var rooms: map<string, Room>
    var staff: map<int, Staff>
    var copies: map<int, Copy>
    var loans: map<int, Loan>
    var fines: map<int, Fine>
    var events: map<int, Event>

    /** The database this connection sees. */
    function State(): Db
      reads this
    {
      Db(foreignKeys, items, members, rooms, staff, copies, loans, fines, events)
    }

    /** A connection to a database holding `db`. */
    constructor Open(db: Db)
      ensures State() == db
    {
      foreignKeys := db.foreignKeys;
      items, members, rooms, staff := db.items, db.members, db.rooms, db.staff;
      copies, loans, fines, events := db.copies, db.loans, db.fines, db.events;
    }

    /** borrow_item: INSERT into Activity (which fails on a broken foreign
        key), then UPDATE Inventory SET Available = 0. */
    method BorrowItem(copyId: int, memberId: int, today: Date) returns (outcome: Ledger.BorrowOutcome)
      modifies this
      ensures Ledger.Step(State(), outcome) == Ledger.Borrow(old(State()), copyId, memberId, today)
    {
      var dueDate := today + Ledger.LoanDays;
      if foreignKeys && (copyId !in copies || memberId !in members) {
        outcome := Ledger.BorrowFailed;
        return;
      }
      var loanId := NextRowId(loans.Keys);
      loans := loans[loanId := Loan(copyId, memberId, today, dueDate, None)];
      if copyId in copies {
        copies := copies[copyId := copies[copyId].(available := false)];
      }
      outcome := Ledger.Borrowed(loanId, dueDate);
    }

    /** return_item: UPDATE Activity SET returnDate, SELECT the loan's copy,
        and if there is one UPDATE Inventory SET Available = 1. */
    method ReturnItem(loanId: int, today: Date)
      modifies this
      ensures State() == Ledger.Return(old(State()), loanId, today)
    {
      if loanId in loans {
        loans := loans[loanId := loans[loanId].(returnDate := Some(today))];
      }
      if loanId in loans {
        var copyId := loans[loanId].copyId;
        if copyId in copies {
          copies := copies[copyId := copies[copyId].(available := true)];
        }
      }
    }

    /** donate_item: SELECT the Item, INSERT it from `details` if absent, then
        INSERT the donated copy. Returns the new copy's id. */
    method DonateItem(isbn: string, details: Item, shelf: string, condition: string, today: Date)
      returns (copyId: int)
      modifies this
      ensures Ledger.Step(State(), copyId) == Ledger.Donate(old(State()), isbn, details, shelf, condition, today)
    {
      if isbn !in items {
        items := items[isbn := details];
      }
      copyId := NextRowId(copies.Keys);
      copies := copies[copyId := Copy(isbn, true, shelf, today, condition, Ledger.DonatedSource)];
    }

    /** register_event: SELECT the event, SELECT its room's capacity, and
        UPDATE reservedSeats to one more when below capacity. */
    method RegisterEvent(eventId: int) returns (outcome: Ledger.RegisterOutcome)
      modifies this
      ensures Ledger.Step(State(), outcome) == Ledger.Register(old(State()), eventId)
    {
      if eventId !in events {
        return Ledger.EventNotFound;
      }
      var event := events[eventId];
      if event.roomNumber !in rooms {
        return Ledger.RoomNotFound;
      }
      var capacity := rooms[event.roomNumber].maxCapacity;
      if event.reservedSeats < capacity {
        events := events[eventId := event.(reservedSeats := event.reservedSeats + 1)];
        outcome := Ledger.Registered;
      } else {
        outcome := Ledger.FullyBooked;
      }
    }

    /** volunteer: INSERT a Personnel row (which fails on a broken foreign key). */
    method VolunteerFor(roomNumber: string, today: Date) returns (outcome: Ledger.VolunteerOutcome)
      modifies this
      ensures Ledger.Step(State(), outcome) == Ledger.Volunteer(old(State()), roomNumber, today)
    {
      if foreignKeys && roomNumber !in rooms {
        return Ledger.VolunteerFailed;
      }
      var personnelId := NextRowId(staff.Keys);
      staff := staff[personnelId := Staff(Ledger.VolunteerPosition, today, 0, roomNumber)];
      outcome := Ledger.Volunteered(personnelId);
    }

    /** ask_for_help: is some librarian in room R001? Changes nothing. */
    method AskForHelp() returns (found: bool)
      ensures found <==> exists id :: id in staff && Ledger.IsFrontDeskLibrarian(staff[id])
    {
      found := Ledger.LibrarianAvailable(staff);
    }
  }
}
