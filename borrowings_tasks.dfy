/** The periodic overdue check (borrowings/tasks.py): pick the unreturned
    borrowings due by tomorrow and send one notification for each, or a
    single "none" notification. The notification channel is an outbox, a
    sequence of message texts each send appends to. */
module BorrowingTasks {
  import opened Wrappers
  import opened Dates
  import opened Accounts
  import opened BookModels
  import opened BorrowingModels
  import Seqs

  const NoneOverdueMessage: string := "No borrowings overdue today!"

  /** `date.today() + timedelta(days=1)` overflowed. */
  datatype TaskError = DateOverflow

  /** Still out, and due on or before `limit`. */
  predicate IsOverdue(b: Borrowing, limit: Date)
  {
    b.actualReturnDate.None? && b.expectedReturnDate <= limit
  }

  /** The query `expected_return_date__lte=limit, actual_return_date=None`. */
  function SelectOverdue(rows: seq<Borrowing>, limit: Date): (r: seq<Borrowing>)
    ensures forall b :: b in r <==> b in rows && b.actualReturnDate.None? && b.expectedReturnDate <= limit
    ensures forall i :: 0 <= i < |r| ==> r[i].actualReturnDate.None?
    ensures |r| <= |rows|
    ensures forall b :: multiset(r)[b] == if IsOverdue(b, limit) then multiset(rows)[b] else 0
  {
    Seqs.Filter(rows, (b: Borrowing) => IsOverdue(b, limit))
  }

  /** Every book and user a row refers to exists (referential integrity).
      `users` holds the text each user renders as. */
  predicate ReferencesResolve(rows: seq<Borrowing>, books: map<BookId, Book>, users: map<UserId, string>)
  {
    forall i :: 0 <= i < |rows| ==> rows[i].book in books && rows[i].user in users
  }

  /** The notification for one overdue borrowing. */
  function OverdueMessage(b: Borrowing, books: map<BookId, Book>, users: map<UserId, string>): string
    requires b.book in books && b.user in users
  {
    "Borrowing of " + Str(books[b.book]) + " is overdue by user " + users[b.user]
      + ". Expected return date - " + IsoFormat(b.expectedReturnDate)
  }

  /** Each overdue message ends with the ISO text of the borrowing's expected
      return date, from which that date can be read back. */
  lemma OverdueMessageNamesDate(b: Borrowing, books: map<BookId, Book>, users: map<UserId, string>)
    requires b.book in books && b.user in users
    ensures var m := OverdueMessage(b, books, users);
      && |m| >= 10
      && m[|m| - 10..] == IsoFormat(b.expectedReturnDate)
      && ReadIso(m[|m| - 10..]) == b.expectedReturnDate
  {
    IsoFormatRoundTrip(b.expectedReturnDate);
    var m := OverdueMessage(b, books, users);
    var prefix := "Borrowing of " + Str(books[b.book]) + " is overdue by user " + users[b.user]
      + ". Expected return date - ";
    assert m == prefix + IsoFormat(b.expectedReturnDate);
    assert m[|m| - 10..] == IsoFormat(b.expectedReturnDate);
  }

  /** The overdue messages, one per selected borrowing, in order. */
  function OverdueMessages(selected: seq<Borrowing>, books: map<BookId, Book>, users: map<UserId, string>): (ms: seq<string>)
    requires ReferencesResolve(selected, books, users)
    ensures |ms| == |selected|
  {
    if selected == [] then []
    else OverdueMessages(selected[..|selected| - 1], books, users)
         + [OverdueMessage(selected[|selected| - 1], books, users)]
  }

  /** The `i`-th message is the one for the `i`-th selected borrowing. */
  lemma {:induction false} OverdueMessageAt(selected: seq<Borrowing>, i: nat, books: map<BookId, Book>, users: map<UserId, string>)
    requires ReferencesResolve(selected, books, users) && i < |selected|
    ensures OverdueMessages(selected, books, users)[i] == OverdueMessage(selected[i], books, users)
  {
    var prefix := selected[..|selected| - 1];
    if i < |selected| - 1 {
      OverdueMessageAt(prefix, i, books, users);
      assert prefix[i] == selected[i];
    }
  }

  /** The messages for one more borrowing extend those before it. */
  lemma OverdueMessagesStep(selected: seq<Borrowing>, i: nat, books: map<BookId, Book>, users: map<UserId, string>)
    requires ReferencesResolve(selected, books, users) && i < |selected|
    ensures OverdueMessages(selected[..i + 1], books, users)
         == OverdueMessages(selected[..i], books, users) + [OverdueMessage(selected[i], books, users)]
  {
    assert selected[..i + 1][..i] == selected[..i];
  }

  /** Everything one run sends: the overdue messages, or the single "none"
      message when nothing is overdue. */
  function Report(selected: seq<Borrowing>, books: map<BookId, Book>, users: map<UserId, string>): seq<string>
    requires ReferencesResolve(selected, books, users)
  {
    if selected == [] then [NoneOverdueMessage] else OverdueMessages(selected, books, users)
  }

  /** A run sends max(1, number selected) messages: one per selected
      borrowing, or exactly the "none" message. */
  lemma ReportShape(selected: seq<Borrowing>, books: map<BookId, Book>, users: map<UserId, string>)
    requires ReferencesResolve(selected, books, users)
    ensures |Report(selected, books, users)| == if |selected| == 0 then 1 else |selected|
    ensures selected == [] ==> Report(selected, books, users) == [NoneOverdueMessage]
    ensures forall i :: 0 <= i < |selected| ==>
      Report(selected, books, users)[i] == OverdueMessage(selected[i], books, users)
  {
    forall i | 0 <= i < |selected|
      ensures Report(selected, books, users)[i] == OverdueMessage(selected[i], books, users)
    {
      OverdueMessageAt(selected, i, books, users);
    }
  }

  /** The selection is well-referenced whenever the table is. */
  lemma SelectionResolves(rows: seq<Borrowing>, limit: Date, books: map<BookId, Book>, users: map<UserId, string>)
    requires ReferencesResolve(rows, books, users)
    ensures ReferencesResolve(SelectOverdue(rows, limit), books, users)
  {
    var selected := SelectOverdue(rows, limit);
    forall i | 0 <= i < |selected|
      ensures selected[i].book in books && selected[i].user in users
    {
      assert selected[i] in rows;
    }
  }

  /** Resolving references is inherited by every prefix. */
  lemma PrefixResolves(selected: seq<Borrowing>, i: nat, books: map<BookId, Book>, users: map<UserId, string>)
    requires ReferencesResolve(selected, books, users) && i <= |selected|
    ensures ReferencesResolve(selected[..i], books, users)
  {
  }

  lemma AppendAssociative(a: seq<string>, b: seq<string>, c: seq<string>)
    ensures (a + b) + c == a + (b + c)
  {
  }

  /** The loop of the task: one notification per overdue borrowing, in order. */
  method NotifyEach(overdue: seq<Borrowing>, books: map<BookId, Book>, users: map<UserId, string>, outbox: seq<string>)
    returns (sent: seq<string>)
    requires ReferencesResolve(overdue, books, users)
    ensures sent == outbox + OverdueMessages(overdue, books, users)
  {
    sent := outbox;
    for i := 0 to |overdue|
      invariant ReferencesResolve(overdue[..i], books, users)
      invariant sent == outbox + OverdueMessages(overdue[..i], books, users)
    {
      var message := OverdueMessage(overdue[i], books, users);
      OverdueMessagesStep(overdue, i, books, users);
      PrefixResolves(overdue, i + 1, books, users);
      AppendAssociative(outbox, OverdueMessages(overdue[..i], books, users), [message]);
      sent := sent + [message];
    }
    assert overdue[..|overdue|] == overdue;
  }

  /** `check_overdue_borrowings` on day `today`, reading `table` and sending
      into `outbox`; returns the outbox afterwards. It has no `modifies`
      clause, so it writes no borrowing. */
  method CheckOverdueBorrowings(table: BorrowingTable, books: map<BookId, Book>, users: map<UserId, string>,
                                today: Date, outbox: seq<string>)
    returns (status: Outcome<TaskError>, sent: seq<string>)
    requires ReferencesResolve(table.rows, books, users)
    ensures status.Fail? <==> today == MaxOrdinal
    ensures status.Fail? ==> sent == outbox
    ensures status.Pass? ==> && ReferencesResolve(SelectOverdue(table.rows, today + 1), books, users)
                             && sent == outbox + Report(SelectOverdue(table.rows, today + 1), books, users)
  {
    var tomorrow := AddDays(today, 1);
    if tomorrow.None? {
      return Fail(DateOverflow), outbox;
    }
    var overdue := SelectOverdue(table.rows, tomorrow.value);
    SelectionResolves(table.rows, tomorrow.value, books, users);
    if overdue != [] {
      sent := NotifyEach(overdue, books, users, outbox);
    } else {
      sent := outbox + [NoneOverdueMessage];
    }
    status := Pass;
  }
}
