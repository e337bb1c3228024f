/** The sample database of the unit tests and what each operation does to it.
    Dates are days since 1970-01-01 (19358 is 2023-01-01). */
module Scenarios {
  import opened Schema
  import opened Like
  import opened Ledger

  const GatsbyIsbn := "9783161484100"
  const NewIsbn := "9789999999999"

  /** One item, one member, room R001 for 30, a librarian in R001, one
      available copy and one event with 10 seats taken; foreign keys on. */
  function Fixture(): Db
  {
    Db(
      true,
      map[GatsbyIsbn := Item("Print Book", "The Great Gatsby", "F. Scott Fitzgerald", "1925-04-10", "Scribner")],
      map[1 := Member("Alice", "Smith", 5613)],
      map["R001" := Room(30)],
      map[1 := Staff("Librarian", 14761, 45000, "R001")],
      map[1 := Copy(GatsbyIsbn, true, "A1", 18271, "Good", "Amazon")],
      map[],
      map[],
      map[1 := Event(19662, 19662, "18:00", "20:00", 10, "R001", "Book Club Meeting", "Book Club", 1)])
  }

  /** The loans of one copy, open or not. */
  ghost function LoansOfCopy(db: Db, copyId: int): set<int>
  {
    set l | l in db.loans && db.loans[l].copyId == copyId
  }

  /** Member 1 borrows copy 1: one loan, due 14 days later, copy unavailable.
      Then member 2, who does not exist, is refused and copy 1 still has one loan. */
  lemma BorrowScenario(today: Date)
    ensures var first := Borrow(Fixture(), 1, 1, today);
            && first.outcome == Borrowed(1, today + 14)
            && first.db.loans == map[1 := Loan(1, 1, today, today + 14, None)]
            && !first.db.copies[1].available
            && var second := Borrow(first.db, 1, 2, today);
               && second.outcome == BorrowFailed
               && |LoansOfCopy(second.db, 1)| == 1
  {
    var first := Borrow(Fixture(), 1, 1, today);
    assert first.db.loans.Keys == {1};
    assert LoansOfCopy(first.db, 1) == {1};
  }

  /** Returning open loan 1 of copy 1 stamps its return date and frees the copy. */
  lemma ReturnScenario(today: Date)
    ensures var before := Fixture().(loans := map[1 := Loan(1, 1, 19358, 19372, None)],
                                     copies := map[1 := Fixture().copies[1].(available := false)]);
            var after := Return(before, 1, today);
            && after.loans[1].returnDate == Some(today)
            && after.copies[1].available
  {
  }

  /** Donating a new ISBN catalogues it and adds an available donated copy of it. */
  lemma DonateScenario(today: Date)
    ensures var details := Item("Print Book", "Test Book", "Test Author", "2023-01-01", "Test Publisher");
            var s := Donate(Fixture(), NewIsbn, details, "S1", "Good", today);
            && s.db.items[NewIsbn] == details
            && s.outcome == 2
            && s.db.copies[2] == Copy(NewIsbn, true, "S1", today, "Good", "Donated")
  {
    assert NewIsbn != GatsbyIsbn;
  }

  /** Registering takes seat 11 of 30; once all 30 are taken, the event is fully booked. */
  lemma RegisterScenario()
    ensures Register(Fixture(), 1).outcome == Registered
    ensures Register(Fixture(), 1).db.events[1].reservedSeats == 11
    ensures var full := Fixture().(events := map[1 := Fixture().events[1].(reservedSeats := 30)]);
            Register(full, 1).outcome == FullyBooked
  {
  }

  /** Volunteering for R001 adds Personnel row 2 as a volunteer in R001. */
  lemma VolunteerScenario(today: Date)
    ensures var s := Volunteer(Fixture(), "R001", today);
            && s.outcome == Volunteered(2)
            && s.db.staff[2].position == "Volunteer" && s.db.staff[2].roomNumber == "R001"
  {
  }

  /** The librarian of the sample data is found at the front desk. */
  lemma AskForHelpScenario()
    ensures LibrarianAvailable(Fixture().staff)
  {
    assert OccursAt("Librarian", LibrarianPattern, 0);
    assert IsFrontDeskLibrarian(Fixture().staff[1]);
  }
}
