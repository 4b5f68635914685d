/** `BorrowingViewSet` (borrowings/views.py): which borrowings a caller
    sees, which serializer an action uses, and how a created borrowing is
    stamped with its creator. */
module BorrowingViews {
  import opened Wrappers
  import opened Dates
  import opened Accounts
  import opened BookModels
  import opened BorrowingModels
  import Seqs

  /** `get_queryset` for an authenticated caller: every borrowing for staff,
      otherwise only the caller's own. */
  function GetQueryset(all: seq<Borrowing>, viewer: Account): (r: seq<Borrowing>)
    ensures viewer.isStaff ==> r == all
    ensures forall b :: b in r ==> b in all
    ensures !viewer.isStaff ==> forall b :: b in r ==> b.user == viewer.id
    ensures !viewer.isStaff ==> forall b :: b in all && b.user == viewer.id ==> b in r
    ensures !viewer.isStaff ==> forall b :: multiset(r)[b] == if b.user == viewer.id then multiset(all)[b] else 0
  {
    if viewer.isStaff then all else Seqs.Filter(all, (b: Borrowing) => b.user == viewer.id)
  }

  /** A non-staff caller's view, order and multiplicity included, does not
      change when other users' borrowings are appended to the table. */
  lemma QuerysetIgnoresOthers(all: seq<Borrowing>, others: seq<Borrowing>, viewer: Account)
    requires !viewer.isStaff
    requires forall b :: b in others ==> b.user != viewer.id
    ensures GetQueryset(all + others, viewer) == GetQueryset(all, viewer)
  {
    var own := (b: Borrowing) => b.user == viewer.id;
    Seqs.FilterAppend(all, others, own);
    assert forall i :: 0 <= i < |others| ==> others[i] in others;
    Seqs.FilterNone(others, own);
    assert Seqs.Filter(all, own) + [] == Seqs.Filter(all, own);
  }

  datatype SerializerClass = BorrowingListSerializer | BorrowingDetailSerializer

  /** `get_serializer_class`; the action is absent on requests that are not
      routed to an action. */
  function GetSerializerClass(action: Option<string>): (s: SerializerClass)
    ensures s == BorrowingListSerializer <==> action == Some("list") || action == Some("retrieve")
    ensures s == BorrowingDetailSerializer <==> !(action == Some("list") || action == Some("retrieve"))
  {
    if action.Some? && action.value in {"list", "retrieve"} then BorrowingListSerializer
    else BorrowingDetailSerializer
  }

  /** The writing actions are served by the detail serializer. */
  lemma WritesUseDetail()
    ensures GetSerializerClass(Some("create")) == BorrowingDetailSerializer
    ensures GetSerializerClass(Some("update")) == BorrowingDetailSerializer
    ensures GetSerializerClass(Some("partial_update")) == BorrowingDetailSerializer
    ensures GetSerializerClass(Some("destroy")) == BorrowingDetailSerializer
    ensures GetSerializerClass(None) == BorrowingDetailSerializer
  {
  }

  /** The validated fields of a create request. The detail serializer
      requires a `user`; it is kept optional here because `perform_create`
      overrides it with the caller either way. */
  datatype BorrowingPayload = BorrowingPayload(
    borrowDate: Date,
    expectedReturnDate: Date,
    actualReturnDate: Option<Date>,
    book: BookId,
    user: Option<UserId>)

  /** The new record `serializer.save(user=request.user)` builds: the
      payload's fields with the caller as user. */
  function StampCaller(p: BorrowingPayload, caller: Account): (b: Borrowing)
    ensures b.user == caller.id
    ensures b.id.None?
    ensures b.borrowDate == p.borrowDate && b.expectedReturnDate == p.expectedReturnDate
    ensures b.actualReturnDate == p.actualReturnDate && b.book == p.book
  {
    Borrowing(None, p.borrowDate, p.expectedReturnDate, p.actualReturnDate, p.book, caller.id)
  }

  /** The user named in the payload has no effect on the record created. */
  lemma PayloadUserIgnored(p: BorrowingPayload, q: BorrowingPayload, caller: Account)
    requires p.(user := None) == q.(user := None)
    ensures StampCaller(p, caller) == StampCaller(q, caller)
  {
  }

  /** `perform_create`: save the payload as a new borrowing of the caller. */
  method PerformCreate(table: BorrowingTable, payload: BorrowingPayload, caller: Account, today: Date)
    returns (r: Result<Borrowing, Raised<ErrorClass>>)
    requires table.Valid()
    modifies table
    ensures table.Valid()
    ensures r.Success? <==> DatesAcceptable(payload.borrowDate, payload.expectedReturnDate, payload.actualReturnDate, today)
    ensures r.Success? ==> r.value.user == caller.id && r.value.book == payload.book
    ensures r.Success? ==> r.value == StampCaller(payload, caller).(id := Some(old(table.nextId)))
    ensures r.Success? ==> table.rows == old(table.rows) + [r.value]
    ensures r.Success? ==> table.nextId == old(table.nextId) + 1
    ensures r.Failure? ==> table.rows == old(table.rows) && table.nextId == old(table.nextId)
  {
    var b := StampCaller(payload, caller);
    r := table.Save(b, today);
    if r.Success? {
      assert IndexOfId(old(table.rows), old(table.nextId)).None?;
    }
  }
}
