/** The `Borrowing` record (borrowings/models.py): its date validator, the
    `clean` hook that applies it to a record, and `save`, which validates
    before it writes. `today` is a parameter in place of the clock. */
module BorrowingModels {
  import opened Wrappers
  import opened Dates
  import opened Accounts
  import opened BookModels

  /** A row of the borrowing table; `id` is absent until the row is saved. */
  datatype Borrowing = Borrowing(
    id: Option<nat>,
    borrowDate: Date,
    expectedReturnDate: Date,
    actualReturnDate: Option<Date>,
    book: BookId,
    user: UserId)

  /** An exception of class `kind` raised with `message`. */
  datatype Raised<K> = Raised(kind: K, message: string)

  /** The exception class `clean` hands to the validator. */
  datatype ErrorClass = ValidationError

  const WithActualMessage: string :=
    "Borrowing date should be today's date, and Expected and Actual return date cannot be earlier than today's date"
  const WithoutActualMessage: string :=
    "Borrowing date should be today's date, and Expected return date cannot be earlier than today's date"

  /** The dates a validation on day `today` accepts: borrowed today, due no
      earlier than borrowed, and returned (if at all) no earlier than due. */
  predicate DatesAcceptable(borrowDate: Date, expectedReturnDate: Date, actualReturnDate: Option<Date>, today: Date)
  {
    && borrowDate == today
    && borrowDate <= expectedReturnDate
    && (actualReturnDate.Some? ==> expectedReturnDate <= actualReturnDate.value)
  }

  /** `Borrowing.validate_date`, run on day `today`: returns, or raises
      `errorToRaise` with the message of the branch taken. */
  function ValidateDate<K>(borrowDate: Date, expectedReturnDate: Date, errorToRaise: K,
                           actualReturnDate: Option<Date>, today: Date): (r: Outcome<Raised<K>>)
    ensures r.Pass? <==> DatesAcceptable(borrowDate, expectedReturnDate, actualReturnDate, today)
    ensures r.Fail? ==> r.error.kind == errorToRaise
    ensures r.Fail? ==> r.error.message == if actualReturnDate.Some? then WithActualMessage else WithoutActualMessage
  {
    if actualReturnDate.Some? then
      if !(borrowDate == today && borrowDate <= expectedReturnDate && expectedReturnDate <= actualReturnDate.value) then
        Fail(Raised(errorToRaise, WithActualMessage))
      else
        Pass
    else
      if !(borrowDate == today && borrowDate <= expectedReturnDate) then
        Fail(Raised(errorToRaise, WithoutActualMessage))
      else
        Pass
  }

  /** Without an actual return date: accepted exactly when borrowed today and
      due no earlier. */
  lemma AcceptanceWithoutActual<K>(borrowDate: Date, expectedReturnDate: Date, k: K, today: Date)
    ensures ValidateDate(borrowDate, expectedReturnDate, k, None, today).Pass?
        <==> borrowDate == today && borrowDate <= expectedReturnDate
  {
  }

  /** With an actual return date: accepted exactly when borrowed today, due
      no earlier, and returned no earlier than due. */
  lemma AcceptanceWithActual<K>(borrowDate: Date, expectedReturnDate: Date, k: K, actual: Date, today: Date)
    ensures ValidateDate(borrowDate, expectedReturnDate, k, Some(actual), today).Pass?
        <==> borrowDate == today && borrowDate <= expectedReturnDate && expectedReturnDate <= actual
  {
  }

  /** A borrow date other than today is refused, whatever the other dates. */
  lemma OtherBorrowDayRejected<K>(borrowDate: Date, expectedReturnDate: Date, k: K,
                                  actual: Option<Date>, today: Date)
    requires borrowDate != today
    ensures ValidateDate(borrowDate, expectedReturnDate, k, actual, today) ==
      Fail(Raised(k, if actual.Some? then WithActualMessage else WithoutActualMessage))
  {
  }

  /** Whatever passes with an actual return date also passes without one. */
  lemma DroppingActualKeepsAcceptance<K>(borrowDate: Date, expectedReturnDate: Date, k: K, actual: Date, today: Date)
    requires ValidateDate(borrowDate, expectedReturnDate, k, Some(actual), today).Pass?
    ensures ValidateDate(borrowDate, expectedReturnDate, k, None, today).Pass?
  {
  }

  /** `Borrowing.clean`: the validator on the record's own three dates,
      raising `ValidationError`. */
  function Clean(b: Borrowing, today: Date): (r: Outcome<Raised<ErrorClass>>)
    ensures r.Pass? <==> DatesAcceptable(b.borrowDate, b.expectedReturnDate, b.actualReturnDate, today)
    ensures r.Fail? ==> r.error.kind == ValidationError
  {
    ValidateDate(b.borrowDate, b.expectedReturnDate, ValidationError, b.actualReturnDate, today)
  }

  /** `clean` reads the three dates and nothing else of the record: records
      that agree on them are judged alike, whatever their id, book or user. */
  lemma CleanReadsOnlyDates(b: Borrowing, c: Borrowing, today: Date)
    requires b.borrowDate == c.borrowDate && b.expectedReturnDate == c.expectedReturnDate
    requires b.actualReturnDate == c.actualReturnDate
    ensures Clean(b, today) == Clean(c, today)
  {
  }

  /** On any day after the borrow date, `clean`, and so every `save`, fails. */
  lemma LaterCleanFails(b: Borrowing, today: Date)
    requires b.borrowDate < today
    ensures Clean(b, today).Fail?
  {
  }

  /** A record as it was accepted on the day it was borrowed. */
  predicate AcceptedOnBorrowDay(b: Borrowing)
  {
    Clean(b, b.borrowDate).Pass?
  }

  /** Position of the row with primary key `id`, if there is one. */
  function IndexOfId(rows: seq<Borrowing>, id: nat): (r: Option<nat>)
    ensures r.Some? ==> r.value < |rows| && rows[r.value].id == Some(id)
    ensures r.None? ==> forall i :: 0 <= i < |rows| ==> rows[i].id != Some(id)
  {
    if rows == [] then None
    else if rows[0].id == Some(id) then Some(0)
    else match IndexOfId(rows[1..], id)
      case Some(i) => Some(i + 1)
      case None => None
  }

  /** The table after writing `row`: an UPDATE of the row with its primary
      key, or an INSERT when there is none. */
  function Upserted(rows: seq<Borrowing>, row: Borrowing): (r: seq<Borrowing>)
    requires row.id.Some?
    ensures row in r
    ensures |r| == |rows| || r == rows + [row]
    ensures forall i :: 0 <= i < |rows| && rows[i].id != row.id ==> rows[i] in r
    ensures forall x :: x in r ==> x == row || x in rows
    ensures (forall i :: 0 <= i < |rows| ==> rows[i].id != row.id) ==> r == rows + [row]
    ensures (exists i :: 0 <= i < |rows| && rows[i].id == row.id) ==>
      |r| == |rows| && forall i :: 0 <= i < |rows| && rows[i].id != row.id ==> r[i] == rows[i]
  {
    match IndexOfId(rows, row.id.value)
    case Some(i) =>
      var r := rows[i := row];
      assert r[i] == row;
      assert forall j :: 0 <= j < |rows| && j != i ==> r[j] == rows[j];
      r
    case None => rows + [row]
  }

  /** The borrowing table, with the next primary key to hand out. */
  class BorrowingTable {
    var rows: seq<Borrowing>
    var nextId: nat

    /** Every row has its own primary key below `nextId`, and no row that
        the validator refused was ever written. */
    ghost predicate Valid()
      reads this
    {
      && (forall i :: 0 <= i < |rows| ==> rows[i].id.Some? && rows[i].id.value < nextId)
      && (forall i, j :: 0 <= i < j < |rows| ==> rows[i].id != rows[j].id)
      && (forall i :: 0 <= i < |rows| ==> AcceptedOnBorrowDay(rows[i]))
    }

    constructor ()
      ensures Valid() && rows == [] && nextId == 1
    {
      rows := [];
      nextId := 1;
    }

    /** `Borrowing.save` on day `today`: `full_clean` first, and only when it
        passes, the write; a new record receives the next primary key. */
    method Save(b: Borrowing, today: Date) returns (r: Result<Borrowing, Raised<ErrorClass>>)
      requires Valid()
      modifies this
      ensures Valid()
      ensures r.Success? <==> Clean(b, today).Pass?
      ensures r.Failure? ==> r.error == Clean(b, today).error && rows == old(rows) && nextId == old(nextId)
      ensures r.Success? ==> r.value == if b.id.None? then b.(id := Some(old(nextId))) else b
      ensures r.Success? ==> rows == Upserted(old(rows), r.value)
      ensures r.Success? ==> nextId == if r.value.id.value < old(nextId) then old(nextId) else r.value.id.value + 1
    {
      var checked := Clean(b, today);
      if checked.Fail? {
        return Failure(checked.error);
      }
      var row := if b.id.None? then b.(id := Some(nextId)) else b;
      assert AcceptedOnBorrowDay(row);
      var k := row.id.value;
      rows := Upserted(rows, row);
      nextId := if k < nextId then nextId else k + 1;
      r := Success(row);
    }
  }
}
