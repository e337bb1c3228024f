/** The effect of each operation of the library application on the database,
    as a function from the state before to the state after (and what the
    operation reports), with the properties the operations keep. */
module Ledger {
  import opened Schema
  import opened Like

  /** A loan is due this many days after it is borrowed. */
  const LoanDays := 14
  /** The Source recorded for a donated copy. */
  const DonatedSource := "Donated"
  /** The Position recorded for a volunteer. */
  const VolunteerPosition := "Volunteer"
  /** The room where a librarian is looked for. */
  const FrontDesk := "R001"
  /** What a staff Position must contain for its holder to count as a librarian. */
  const LibrarianPattern := "Librarian"

  /** The database after an operation, with what the operation reports. */
  datatype Step<T> = Step(db: Db, outcome: T)

  datatype BorrowOutcome = Borrowed(loanId: int, dueDate: Date) | BorrowFailed
  datatype RegisterOutcome = Registered | FullyBooked | EventNotFound | RoomNotFound
  datatype VolunteerOutcome = Volunteered(personnelId: int) | VolunteerFailed

  /** UPDATE Inventory SET Available = `available` WHERE copyID = `copyId`:
      only that copy's flag changes, and a missing copy changes nothing. */
  function SetAvailable(copies: map<int, Copy>, copyId: int, available: bool): (r: map<int, Copy>)
    ensures r.Keys == copies.Keys
    ensures copyId in copies ==> r[copyId] == copies[copyId].(available := available)
    ensures forall c :: c in copies && c != copyId ==> r[c] == copies[c]
  {
    if copyId in copies then copies[copyId := copies[copyId].(available := available)] else copies
  }

  // ---------------------------------------------------------------- borrow

  /** borrow_item: insert an open loan for (copyId, memberId) due LoanDays
      after today, then mark that copy unavailable. Nothing reads Available
      first. The INSERT fails, and then nothing changes, exactly when foreign
      keys are enforced and the copy or the member does not exist. */
  function Borrow(db: Db, copyId: int, memberId: int, today: Date): (r: Step<BorrowOutcome>)
    ensures r.outcome.BorrowFailed? <==> db.foreignKeys && (copyId !in db.copies || memberId !in db.members)
    ensures r.outcome.BorrowFailed? ==> r.db == db
    ensures r.outcome.Borrowed? ==>
      && r.outcome.loanId !in db.loans
      && r.outcome.dueDate == today + LoanDays
      && r.db.loans.Keys == db.loans.Keys + {r.outcome.loanId}
      && r.db.loans[r.outcome.loanId] == Loan(copyId, memberId, today, today + LoanDays, None)
      && (forall l :: l in db.loans ==> r.db.loans[l] == db.loans[l])
      && r.db.copies.Keys == db.copies.Keys
      && (copyId in db.copies ==> r.db.copies[copyId] == db.copies[copyId].(available := false))
      && (forall c :: c in db.copies && c != copyId ==> r.db.copies[c] == db.copies[c])
      && r.db.(loans := db.loans, copies := db.copies) == db
  {
    if db.foreignKeys && (copyId !in db.copies || memberId !in db.members) then
      Step(db, BorrowFailed)
    else
      var loanId := NextRowId(db.loans.Keys);
      var due := today + LoanDays;
      var loans := db.loans[loanId := Loan(copyId, memberId, today, due, None)];
      Step(db.(loans := loans, copies := SetAvailable(db.copies, copyId, false)), Borrowed(loanId, due))
  }

  // ---------------------------------------------------------------- return

  /** return_item: stamp today as the loan's return date, then mark the
      loan's copy available. An unknown loan changes nothing; a loan already
      returned is stamped again (there is no guard). */
  function Return(db: Db, loanId: int, today: Date): (r: Db)
    ensures loanId !in db.loans ==> r == db
    ensures r.loans.Keys == db.loans.Keys && r.copies.Keys == db.copies.Keys
    ensures loanId in db.loans ==> r.loans[loanId] == db.loans[loanId].(returnDate := Some(today))
    ensures forall l :: l in db.loans && l != loanId ==> r.loans[l] == db.loans[l]
    ensures forall c :: c in db.copies ==>
      r.copies[c] == if loanId in db.loans && db.loans[loanId].copyId == c
                     then db.copies[c].(available := true) else db.copies[c]
    ensures r.(loans := db.loans, copies := db.copies) == db
  {
    if loanId !in db.loans then db
    else
      var loan := db.loans[loanId];
      var loans := db.loans[loanId := loan.(returnDate := Some(today))];
      db.(loans := loans, copies := SetAvailable(db.copies, loan.copyId, true))
  }

  // ---------------------------------------------------------------- donate

  /** The Item table after inserting `details` under `isbn` if, and only if, it is absent. */
  function CatalogueIfAbsent(items: map<string, Item>, isbn: string, details: Item): (r: map<string, Item>)
    ensures r.Keys == items.Keys + {isbn}
    ensures forall i :: i in items ==> r[i] == items[i]
    ensures isbn !in items ==> r[isbn] == details
  {
    if isbn in items then items else items[isbn := details]
  }

  /** donate_item: add the Item from `details` when its ISBN is not yet
      catalogued, then always add a new available copy with Source "Donated"
      acquired today. The outcome is the new copy's id. */
  function Donate(db: Db, isbn: string, details: Item, shelf: string, condition: string, today: Date)
    : (r: Step<int>)
    ensures r.db.items.Keys == db.items.Keys + {isbn}
    ensures forall i :: i in db.items ==> r.db.items[i] == db.items[i]
    ensures isbn !in db.items ==> r.db.items[isbn] == details
    ensures r.outcome !in db.copies
    ensures r.db.copies.Keys == db.copies.Keys + {r.outcome}
    ensures r.db.copies[r.outcome] == Copy(isbn, true, shelf, today, condition, DonatedSource)
    ensures forall c :: c in db.copies ==> r.db.copies[c] == db.copies[c]
    ensures r.db.(items := db.items, copies := db.copies) == db
  {
    var items := CatalogueIfAbsent(db.items, isbn, details);
    var copyId := NextRowId(db.copies.Keys);
    var copies := db.copies[copyId := Copy(isbn, true, shelf, today, condition, DonatedSource)];
    assert copies.Keys == db.copies.Keys + {copyId};
    Step(db.(items := items, copies := copies), copyId)
  }

  // -------------------------------------------------------- register_event

  /** register_event: take one more seat of the event when its room still
      has room for one. An unknown event, an event whose room row is missing
      (the failed lookup raises and is caught) and a full event change nothing. */
  function Register(db: Db, eventId: int): (r: Step<RegisterOutcome>)
    ensures r.outcome == EventNotFound <==> eventId !in db.events
    ensures r.outcome == RoomNotFound <==> eventId in db.events && db.events[eventId].roomNumber !in db.rooms
    ensures r.outcome == Registered <==>
      && eventId in db.events
      && db.events[eventId].roomNumber in db.rooms
      && db.events[eventId].reservedSeats < db.rooms[db.events[eventId].roomNumber].maxCapacity
    ensures r.outcome != Registered ==> r.db == db
    ensures r.outcome == Registered ==>
      && r.db.events.Keys == db.events.Keys
      && r.db.events[eventId] == db.events[eventId].(reservedSeats := db.events[eventId].reservedSeats + 1)
      && (forall e :: e in db.events && e != eventId ==> r.db.events[e] == db.events[e])
      && r.db.(events := db.events) == db
  {
    if eventId !in db.events then Step(db, EventNotFound)
    else
      var event := db.events[eventId];
      if event.roomNumber !in db.rooms then Step(db, RoomNotFound)
      else if event.reservedSeats < db.rooms[event.roomNumber].maxCapacity then
        var events := db.events[eventId := event.(reservedSeats := event.reservedSeats + 1)];
        Step(db.(events := events), Registered)
      else Step(db, FullyBooked)
  }

  // ------------------------------------------------------------- volunteer

  /** volunteer: add a Personnel row in the given room, Position "Volunteer",
      salary 0, starting today. The names asked for are not stored. The
      INSERT fails, changing nothing, exactly when foreign keys are enforced
      and the room does not exist. */
  function Volunteer(db: Db, roomNumber: string, today: Date): (r: Step<VolunteerOutcome>)
    ensures r.outcome.VolunteerFailed? <==> db.foreignKeys && roomNumber !in db.rooms
    ensures r.outcome.VolunteerFailed? ==> r.db == db
    ensures r.outcome.Volunteered? ==>
      && r.outcome.personnelId !in db.staff
      && r.db.staff.Keys == db.staff.Keys + {r.outcome.personnelId}
      && r.db.staff[r.outcome.personnelId] == Staff(VolunteerPosition, today, 0, roomNumber)
      && (forall p :: p in db.staff ==> r.db.staff[p] == db.staff[p])
      && r.db.(staff := db.staff) == db
  {
    if db.foreignKeys && roomNumber !in db.rooms then Step(db, VolunteerFailed)
    else
      var id := NextRowId(db.staff.Keys);
      Step(db.(staff := db.staff[id := Staff(VolunteerPosition, today, 0, roomNumber)]), Volunteered(id))
  }

  // ---------------------------------------------------------- ask_for_help

  /** A staff member ask_for_help looks for: Position LIKE '%Librarian%' in room R001. */
  predicate IsFrontDeskLibrarian(p: Staff)
  {
    LikeContains(p.position, LibrarianPattern) && p.roomNumber == FrontDesk
  }

  /** ask_for_help: whether some Personnel row is a librarian at the front desk. */
  predicate LibrarianAvailable(staff: map<int, Staff>)
  {
    exists id :: id in staff && IsFrontDeskLibrarian(staff[id])
  }

  // ============================================================ properties

  /** With foreign keys enforced, borrowing keeps every foreign key satisfied. */
  lemma BorrowKeepsForeignKeys(db: Db, copyId: int, memberId: int, today: Date)
    requires db.foreignKeys && ForeignKeysHold(db)
    ensures ForeignKeysHold(Borrow(db, copyId, memberId, today).db)
  {
  }

  /** Returning keeps every foreign key satisfied. */
  lemma ReturnKeepsForeignKeys(db: Db, loanId: int, today: Date)
    requires ForeignKeysHold(db)
    ensures ForeignKeysHold(Return(db, loanId, today))
  {
  }

  /** Donating keeps every foreign key satisfied: the new copy's ISBN is catalogued. */
  lemma DonateKeepsForeignKeys(db: Db, isbn: string, details: Item, shelf: string, condition: string, today: Date)
    requires ForeignKeysHold(db)
    ensures ForeignKeysHold(Donate(db, isbn, details, shelf, condition, today).db)
  {
  }

  /** Registering for an event keeps every foreign key satisfied. */
  lemma RegisterKeepsForeignKeys(db: Db, eventId: int)
    requires ForeignKeysHold(db)
    ensures ForeignKeysHold(Register(db, eventId).db)
  {
  }

  /** With foreign keys enforced, volunteering keeps every foreign key satisfied. */
  lemma VolunteerKeepsForeignKeys(db: Db, roomNumber: string, today: Date)
    requires db.foreignKeys && ForeignKeysHold(db)
    ensures ForeignKeysHold(Volunteer(db, roomNumber, today).db)
  {
  }

  /** Returning the same loan twice on one day ends in the same state as returning it once. */
  lemma ReturnTwiceSameDay(db: Db, loanId: int, today: Date)
    ensures Return(Return(db, loanId, today), loanId, today) == Return(db, loanId, today)
  {
  }

  /** Borrowing a copy and then returning that loan leaves the copy available,
      the loan closed on the return day and due LoanDays after the borrow day,
      and every other table as it was; a copy that was available before is
      back exactly as it was. */
  lemma BorrowThenReturn(db: Db, copyId: int, memberId: int, borrowDay: Date, returnDay: Date)
    requires Borrow(db, copyId, memberId, borrowDay).outcome.Borrowed?
    ensures var s := Borrow(db, copyId, memberId, borrowDay);
            var r := Return(s.db, s.outcome.loanId, returnDay);
            && r.loans == db.loans[s.outcome.loanId := Loan(copyId, memberId, borrowDay, borrowDay + LoanDays, Some(returnDay))]
            && (copyId in db.copies ==> r.copies[copyId].available)
            && (copyId in db.copies && db.copies[copyId].available ==> r.copies == db.copies)
            && r.(loans := db.loans, copies := db.copies) == db
  {
  }

  /** The open loans of one copy. */
  ghost function OpenLoansOf(loans: map<int, Loan>, copyId: int): set<int>
  {
    set l | l in loans && loans[l].copyId == copyId && loans[l].IsOpen()
  }

  /** Adding an open loan under an unused id adds it to its copy's open loans only. */
  lemma OpenLoansAfterInsert(loans: map<int, Loan>, newLoan: int, loan: Loan, copyId: int)
    requires newLoan !in loans && loan.IsOpen()
    ensures OpenLoansOf(loans[newLoan := loan], copyId)
            == OpenLoansOf(loans, copyId) + (if loan.copyId == copyId then {newLoan} else {})
    ensures |OpenLoansOf(loans[newLoan := loan], copyId)|
            == |OpenLoansOf(loans, copyId)| + (if loan.copyId == copyId then 1 else 0)
  {
    assert newLoan !in OpenLoansOf(loans, copyId);
  }

  /** A successful borrow opens exactly one more loan on the copy, whether or
      not the copy was available, and no loan on any other copy. */
  lemma BorrowOpensOneLoan(db: Db, copyId: int, memberId: int, today: Date, other: int)
    requires Borrow(db, copyId, memberId, today).outcome.Borrowed?
    requires other != copyId
    ensures var s := Borrow(db, copyId, memberId, today);
            && OpenLoansOf(s.db.loans, copyId) == OpenLoansOf(db.loans, copyId) + {s.outcome.loanId}
            && |OpenLoansOf(s.db.loans, copyId)| == |OpenLoansOf(db.loans, copyId)| + 1
            && OpenLoansOf(s.db.loans, other) == OpenLoansOf(db.loans, other)
  {
    var s := Borrow(db, copyId, memberId, today);
    var newLoan := s.outcome.loanId;
    var loan := Loan(copyId, memberId, today, today + LoanDays, None);
    assert s.db.loans == db.loans[newLoan := loan];
    OpenLoansAfterInsert(db.loans, newLoan, loan, copyId);
    OpenLoansAfterInsert(db.loans, newLoan, loan, other);
  }

  /** The copies of one catalogued item. */
  ghost function CopiesOf(db: Db, isbn: string): set<int>
  {
    set c | c in db.copies && db.copies[c].isbn == isbn
  }

  /** A donation adds exactly one copy of the donated ISBN and none of any other. */
  lemma DonateAddsOneCopy(db: Db, isbn: string, details: Item, shelf: string, condition: string, today: Date,
                          other: string)
    requires other != isbn
    ensures var s := Donate(db, isbn, details, shelf, condition, today);
            && CopiesOf(s.db, isbn) == CopiesOf(db, isbn) + {s.outcome}
            && |CopiesOf(s.db, isbn)| == |CopiesOf(db, isbn)| + 1
            && CopiesOf(s.db, other) == CopiesOf(db, other)
  {
  }

  /** Donating an ISBN twice catalogues it once: the second donation keeps the Item of the first. */
  lemma DonateTwiceKeepsItem(db: Db, isbn: string, d1: Item, d2: Item, shelf: string, condition: string, today: Date)
    ensures var s1 := Donate(db, isbn, d1, shelf, condition, today);
            var s2 := Donate(s1.db, isbn, d2, shelf, condition, today);
            && s2.db.items == s1.db.items
            && s2.outcome != s1.outcome
  {
  }

  /** Every event whose room exists has no more seats reserved than the room holds. */
  ghost predicate SeatsWithinCapacity(db: Db)
  {
    forall e :: e in db.events && db.events[e].roomNumber in db.rooms ==>
      db.events[e].reservedSeats <= db.rooms[db.events[e].roomNumber].maxCapacity
  }

  /** Registration never reserves more seats than the room holds. */
  lemma RegisterKeepsSeatsWithinCapacity(db: Db, eventId: int)
    requires SeatsWithinCapacity(db)
    ensures SeatsWithinCapacity(Register(db, eventId).db)
  {
  }

  /** `n` registrations for one event in a row. */
  function RegisterTimes(db: Db, eventId: int, n: nat): Db
  {
    if n == 0 then db else Register(RegisterTimes(db, eventId, n - 1), eventId).db
  }

  /** From `s` reserved seats in a room of capacity `cap`, `n` registrations
      end with min(s + n, cap) seats reserved when s < cap, and with s otherwise;
      nothing else in the database changes. */
  lemma {:induction false} RegisterTimesFillsUpTo(db: Db, eventId: int, n: nat)
    requires eventId in db.events && db.events[eventId].roomNumber in db.rooms
    ensures var s := db.events[eventId].reservedSeats;
            var cap := db.rooms[db.events[eventId].roomNumber].maxCapacity;
            var r := RegisterTimes(db, eventId, n);
            && eventId in r.events
            && r.events[eventId] == db.events[eventId].(reservedSeats := r.events[eventId].reservedSeats)
            && r.events[eventId].reservedSeats == (if s >= cap then s else if s + n <= cap then s + n else cap)
            && r.(events := db.events) == db
            && r.events.Keys == db.events.Keys
            && forall e :: e in db.events && e != eventId ==> r.events[e] == db.events[e]
  {
    if n > 0 {
      RegisterTimesFillsUpTo(db, eventId, n - 1);
    }
  }

  /** "Volunteer" does not match '%Librarian%'. */
  lemma VolunteerIsNotLibrarian()
    ensures !LikeContains(VolunteerPosition, LibrarianPattern)
  {
    forall i ensures !OccursAt(VolunteerPosition, LibrarianPattern, i) {
      if 0 <= i && i + |LibrarianPattern| <= |VolunteerPosition| {
        assert i == 0;
        assert VolunteerPosition[i..i + |LibrarianPattern|][0] == 'V';
      }
    }
  }

  /** Volunteering never makes a librarian available, nor takes one away:
      "Volunteer" does not match '%Librarian%'. */
  lemma VolunteerKeepsHelpAnswer(db: Db, roomNumber: string, today: Date)
    ensures LibrarianAvailable(Volunteer(db, roomNumber, today).db.staff) == LibrarianAvailable(db.staff)
  {
    var s := Volunteer(db, roomNumber, today);
    if s.outcome.Volunteered? {
      var p := s.outcome.personnelId;
      VolunteerIsNotLibrarian();
      assert !IsFrontDeskLibrarian(s.db.staff[p]);
      if LibrarianAvailable(s.db.staff) {
        var id :| id in s.db.staff && IsFrontDeskLibrarian(s.db.staff[id]);
        assert id in db.staff;
      }
      if LibrarianAvailable(db.staff) {
        var id :| id in db.staff && IsFrontDeskLibrarian(db.staff[id]);
        assert s.db.staff[id] == db.staff[id];
      }
    }
  }
}
