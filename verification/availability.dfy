/** Whether a copy's Available flag agrees with its loans. The program never
    checks availability before lending and never checks that a loan is still
    open before returning it, so it does not keep this agreement; the checked
    operations below do. */
module Availability {
  import opened Schema
  import opened Ledger

  /** Some open loan is on this copy. */
  ghost predicate OnLoan(db: Db, copyId: int)
  {
    exists l :: l in db.loans && db.loans[l].copyId == copyId && db.loans[l].IsOpen()
  }

  /** Available agrees with the loans: every open loan is on a copy in the
      inventory, a copy is available exactly when no open loan is on it,
      and no copy has two open loans. */
  ghost predicate Coherent(db: Db)
  {
    && (forall l :: l in db.loans && db.loans[l].IsOpen() ==> db.loans[l].copyId in db.copies)
    && (forall c :: c in db.copies ==> (db.copies[c].available <==> !OnLoan(db, c)))
    && (forall l1, l2 ::
          (l1 in db.loans && l2 in db.loans && db.loans[l1].IsOpen() && db.loans[l2].IsOpen()
           && db.loans[l1].copyId == db.loans[l2].copyId) ==> l1 == l2)
  }

  /** As written, borrowing a copy that is on loan to a member who exists
      succeeds, and leaves the copy with two open loans. */
  lemma BorrowOfLentCopyBreaksCoherence(db: Db, copyId: int, memberId: int, today: Date)
    requires Coherent(db)
    requires copyId in db.copies && !db.copies[copyId].available
    requires memberId in db.members
    ensures Borrow(db, copyId, memberId, today).outcome.Borrowed?
    ensures |OpenLoansOf(Borrow(db, copyId, memberId, today).db.loans, copyId)| == 2
    ensures !Coherent(Borrow(db, copyId, memberId, today).db)
  {
    var held :| held in db.loans && db.loans[held].copyId == copyId && db.loans[held].IsOpen();
    forall l | l in OpenLoansOf(db.loans, copyId)
      ensures l == held
    {
      assert db.loans[l].copyId == db.loans[held].copyId;
    }
    assert OpenLoansOf(db.loans, copyId) == {held};
    BorrowOpensOneLoan(db, copyId, memberId, today, copyId + 1);
  }

  /** As written, returning a loan that was already returned marks its copy
      available while another loan of the copy is still open. */
  lemma ReturnOfClosedLoanBreaksCoherence(db: Db, closed: int, open: int, today: Date)
    requires Coherent(db)
    requires closed in db.loans && !db.loans[closed].IsOpen()
    requires open in db.loans && db.loans[open].IsOpen() && db.loans[open].copyId == db.loans[closed].copyId
    ensures var c := db.loans[closed].copyId;
            var r := Return(db, closed, today);
            && c in r.copies && r.copies[c].available
            && open in r.loans && r.loans[open].IsOpen() && r.loans[open].copyId == c
    ensures !Coherent(Return(db, closed, today))
  {
  }

  /** borrow_item with the availability check the unit tests expect: a copy
      that is missing or not available is refused, and nothing changes. */
  function BorrowIfAvailable(db: Db, copyId: int, memberId: int, today: Date): (r: Step<BorrowOutcome>)
    ensures r.outcome.Borrowed? <==>
      copyId in db.copies && db.copies[copyId].available && (db.foreignKeys ==> memberId in db.members)
    ensures r.outcome.Borrowed? ==> r == Borrow(db, copyId, memberId, today)
    ensures r.outcome.BorrowFailed? ==> r.db == db
  {
    if copyId !in db.copies || !db.copies[copyId].available then Step(db, BorrowFailed)
    else Borrow(db, copyId, memberId, today)
  }

  /** return_item with a guard on loans already returned, which change nothing.
      An open loan is closed on `today` and its copy becomes available; no
      other loan, no other copy and no other table changes. */
  function ReturnIfOpen(db: Db, loanId: int, today: Date): (r: Db)
    ensures !(loanId in db.loans && db.loans[loanId].IsOpen()) ==> r == db
    ensures loanId in db.loans && db.loans[loanId].IsOpen() ==>
      var loan := db.loans[loanId];
      && r.loans.Keys == db.loans.Keys
      && r.loans[loanId] == loan.(returnDate := Some(today))
      && (forall l :: l in db.loans && l != loanId ==> r.loans[l] == db.loans[l])
      && r.copies.Keys == db.copies.Keys
      && (loan.copyId in db.copies ==> r.copies[loan.copyId] == db.copies[loan.copyId].(available := true))
      && (forall c :: c in db.copies && c != loan.copyId ==> r.copies[c] == db.copies[c])
      && r.(loans := db.loans, copies := db.copies) == db
  {
    if loanId in db.loans && db.loans[loanId].IsOpen() then Return(db, loanId, today) else db
  }

  /** The guarded return is idempotent whatever the days: once a loan is
      returned, returning it again changes nothing (as written, `Return`
      restamps the loan with the later day instead; see ReturnRestamps). */
  lemma ReturnIfOpenTwice(db: Db, loanId: int, day1: Date, day2: Date)
    ensures ReturnIfOpen(ReturnIfOpen(db, loanId, day1), loanId, day2) == ReturnIfOpen(db, loanId, day1)
  {
  }

  /** As written, returning a loan a second time overwrites its return date
      with the second day, so the program's return is idempotent only on the same day. */
  lemma ReturnRestamps(db: Db, loanId: int, day1: Date, day2: Date)
    requires loanId in db.loans
    ensures Return(Return(db, loanId, day1), loanId, day2).loans[loanId].returnDate == Some(day2)
    ensures day1 != day2 ==> Return(Return(db, loanId, day1), loanId, day2) != Return(db, loanId, day1)
  {
  }

  /** The checked borrow keeps Available in agreement with the loans. */
  lemma BorrowIfAvailableKeepsCoherence(db: Db, copyId: int, memberId: int, today: Date)
    requires Coherent(db)
    ensures Coherent(BorrowIfAvailable(db, copyId, memberId, today).db)
  {
    var s := BorrowIfAvailable(db, copyId, memberId, today);
    if s.outcome.Borrowed? {
      var newLoan := s.outcome.loanId;
      assert !OnLoan(db, copyId);
      forall c | c in s.db.copies
        ensures s.db.copies[c].available <==> !OnLoan(s.db, c)
      {
        if c == copyId {
          assert s.db.loans[newLoan].copyId == c && s.db.loans[newLoan].IsOpen();
        } else if OnLoan(s.db, c) {
          var l :| l in s.db.loans && s.db.loans[l].copyId == c && s.db.loans[l].IsOpen();
          assert l in db.loans && db.loans[l] == s.db.loans[l];
        }
      }
    }
  }

  /** The guarded return keeps Available in agreement with the loans. */
  lemma ReturnIfOpenKeepsCoherence(db: Db, loanId: int, today: Date)
    requires Coherent(db)
    ensures Coherent(ReturnIfOpen(db, loanId, today))
  {
    if loanId in db.loans && db.loans[loanId].IsOpen() {
      var r := Return(db, loanId, today);
      var copyId := db.loans[loanId].copyId;
      forall c | c in r.copies
        ensures r.copies[c].available <==> !OnLoan(r, c)
      {
        if OnLoan(r, c) {
          var l :| l in r.loans && r.loans[l].copyId == c && r.loans[l].IsOpen();
          assert l != loanId && db.loans[l] == r.loans[l];
          assert c != copyId;
        } else if OnLoan(db, c) {
          var l :| l in db.loans && db.loans[l].copyId == c && db.loans[l].IsOpen();
          assert l == loanId;
        }
      }
    }
  }

  /** A donation adds an available copy that no loan is on, so it keeps the agreement. */
  lemma DonateKeepsCoherence(db: Db, isbn: string, details: Item, shelf: string, condition: string, today: Date)
    requires Coherent(db)
    ensures Coherent(Donate(db, isbn, details, shelf, condition, today).db)
  {
    var s := Donate(db, isbn, details, shelf, condition, today);
    forall c | c in s.db.copies
      ensures s.db.copies[c].available <==> !OnLoan(s.db, c)
    {
      if OnLoan(s.db, c) {
        var l :| l in s.db.loans && s.db.loans[l].copyId == c && s.db.loans[l].IsOpen();
        assert c in db.copies;
      }
    }
  }
}
