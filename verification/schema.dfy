/** The tables of the library database, their keys and their foreign keys
    (the schema the test suite creates), and SQLite's rule for new row ids. */
module Schema {

  /** A calendar day as a day number; the program stores ISO date strings. */
  type Date = int

  datatype Option<T> = None | Some(value: T)

  /** A row of Item, keyed by ISBN. */
  datatype Item = Item(itemType: string, title: string, author: string, publishDate: string, publisher: string)

  /** A row of Member, keyed by memberID. */
  datatype Member = Member(firstName: string, lastName: string, dob: Date)

  /** A row of Room, keyed by roomNumber. */
  datatype Room = Room(maxCapacity: int)

  /** A row of Personnel, keyed by personnelID; roomNumber references Room. */
  datatype Staff = Staff(position: string, startDate: Date, salary: int, roomNumber: string)

  /** A row of Inventory (one copy), keyed by copyID; isbn references Item. */
  datatype Copy = Copy(isbn: string, available: bool, shelfNumber: string, acquisitionDate: Date,
                       condition: string, source: string)

  /** A row of Activity (one loan), keyed by loanID; copyId references Inventory,
      memberId references Member. A loan is open while returnDate is None. */
  datatype Loan = Loan(copyId: int, memberId: int, borrowDate: Date, dueDate: Date, returnDate: Option<Date>)
  {
    predicate IsOpen() { returnDate.None? }
  }

  /** A row of Fine, keyed by the loanID it references. */
  datatype Fine = Fine(amount: int, paymentDate: Option<Date>)

  /** A row of Event, keyed by EventID; roomNumber references Room, personnelId Personnel. */
  datatype Event = Event(startDate: Date, endDate: Date, startTime: string, endTime: string,
                         reservedSeats: int, roomNumber: string, eventName: string, eventType: string,
                         personnelId: int)

  /** The whole database as seen through one connection. `foreignKeys` is the
      connection's `PRAGMA foreign_keys` setting. */
  datatype Db = Db(
    foreignKeys: bool,
    items: map<string, Item>,
    members: map<int, Member>,
    rooms: map<string, Room>,
    staff: map<int, Staff>,
    copies: map<int, Copy>,
    loans: map<int, Loan>,
    fines: map<int, Fine>,
    events: map<int, Event>)

  /** Every foreign key of the schema is satisfied. */
  ghost predicate ForeignKeysHold(db: Db)
  {
    && (forall c :: c in db.copies ==> db.copies[c].isbn in db.items)
    && (forall l :: l in db.loans ==> db.loans[l].copyId in db.copies && db.loans[l].memberId in db.members)
    && (forall p :: p in db.staff ==> db.staff[p].roomNumber in db.rooms)
    && (forall e :: e in db.events ==> db.events[e].roomNumber in db.rooms && db.events[e].personnelId in db.staff)
    && (forall l :: l in db.fines ==> l in db.loans)
  }

  /** A non-empty finite set of keys has a largest element. */
  lemma {:induction false} LargestKeyExists(keys: set<int>)
    requires keys != {}
    ensures exists m :: m in keys && forall k :: k in keys ==> k <= m
  {
    var x := PickKey(keys);
    if keys != {x} {
      var rest := keys - {x};
      assert keys == rest + {x};
      LargestKeyExists(rest);
      var m :| m in rest && forall k :: k in rest ==> k <= m;
      if m < x {
        assert forall k :: k in keys ==> k <= x;
      } else {
        assert forall k :: k in keys ==> k <= m;
      }
    }
  }

  /** Some element of a non-empty set. */
  lemma PickKeyExists(keys: set<int>)
    requires keys != {}
    ensures exists k :: k in keys
  {
    if forall k :: k !in keys {
      assert false;
    }
  }

  ghost function PickKey(keys: set<int>): (k: int)
    requires keys != {}
    ensures k in keys
  {
    PickKeyExists(keys);
    var k :| k in keys; k
  }

  function LargestKey(keys: set<int>): (m: int)
    requires keys != {}
    ensures m in keys && forall k :: k in keys ==> k <= m
  {
    LargestKeyExists(keys);
    var m :| m in keys && forall k :: k in keys ==> k <= m;
    m
  }

  /** The key SQLite gives a row inserted into an INTEGER PRIMARY KEY table
      without naming one: one more than the largest key in use, 1 in an empty table. */
  function NextRowId(keys: set<int>): (k: int)
    ensures k !in keys
    ensures forall j :: j in keys ==> j < k
    ensures keys == {} ==> k == 1
    ensures keys != {} ==> k - 1 in keys
  {
    if keys == {} then 1 else LargestKey(keys) + 1
  }
}
