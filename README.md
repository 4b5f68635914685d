# Library rental backend: a Dafny model of its decision logic

This project models the parts of a Django library-rental backend that are
plain decision logic, and proves what they promise:

- the `Book` record: its field constraints, the `HARD`/`SOFT` cover choices,
  the unique title, the fee as a fixed-point decimal with two places (held
  as integer cents), its string form and its default ordering by title;
- the `Borrowing` record: the date validator `validate_date`, the `clean`
  hook that applies it, and `save`, which validates before it writes
  (`BorrowingModels.BorrowingTable`, a table of rows with the next primary
  key);
- the two access rules, for books and for borrowings, as boolean functions
  of the HTTP method and the request user;
- the borrowing view set: per-caller scoping of the list, the serializer
  chosen per action, and stamping a created borrowing with its creator;
- the periodic overdue check, which selects unreturned borrowings due by
  tomorrow and sends one notification each, or one "none" notification.
  The notification channel is an outbox: a sequence of message texts.

Dates are day numbers as Python's `date.toordinal()` gives them
(`Dates.Date`, 0001-01-01 to 9999-12-31), and the current day `today` is a
parameter of every operation that reads the clock. Overdue messages render
dates as `str(date)` does (YYYY-MM-DD); `Dates.FromOrdinal` follows
`date.fromordinal`; its result is proved to be a real calendar date that
`toordinal` maps back to the day number it came from.

Files: `wrappers.dfy` (Option/Result/Outcome), `seqs.dfy` (queryset filter),
`dates.dfy`, `accounts.dfy` (the request user), `books_models.dfy`,
`books_permissions.dfy`, `borrowings_models.dfy`,
`borrowings_permissions.dfy`, `borrowings_views.dfy`, `borrowings_tasks.dfy`.

The date rule is the one the code enforces: the borrow date must be today,
the expected return date must not be before it, and, when an actual return
date is given, it must not be before the expected one. Nothing requires the
expected return date to lie in the future beyond that.

## Model

| member | source | states |
|---|---|---|
| BorrowingModels.ValidateDate | borrowings/models.py:21-44 | Passes iff the borrow date is today, the expected return date is not before it, and a given actual return date is not before the expected one; a failure raises the caller's error kind with the message of the branch taken |
| BorrowingModels.AcceptanceWithoutActual | borrowings/models.py:37-44 | Without an actual return date: accepted iff borrow date == today and borrow date <= expected return date |
| BorrowingModels.AcceptanceWithActual | borrowings/models.py:28-36 | With an actual return date: accepted iff borrow date == today, borrow date <= expected and expected <= actual |
| BorrowingModels.OtherBorrowDayRejected | borrowings/models.py:28-44 | A borrow date other than today is refused whatever the other dates, with the caller's error kind |
| BorrowingModels.DroppingActualKeepsAcceptance | borrowings/models.py:28-40 | Whatever is accepted with an actual return date is accepted with it absent |
| BorrowingModels.Clean | borrowings/models.py:46-52 | Passes iff the record's own three dates are acceptable today; failures are `ValidationError` |
| BorrowingModels.CleanReadsOnlyDates | borrowings/models.py:46-52 | Records that agree on the three dates are judged alike, whatever their id, book or user |
| BorrowingModels.LaterCleanFails | borrowings/models.py:28-44 | On any day after the borrow date the check fails, so every later save fails |
| BorrowingModels.IndexOfId | borrowings/models.py:62-64 | Finds the row holding a primary key, or reports that no row holds it |
| BorrowingModels.Upserted | borrowings/models.py:62-64 | Writing a row replaces the row with its key when there is one (same length, rows with other keys unchanged in place) and otherwise appends it at the end; nothing else is added |
| BorrowingModels.BorrowingTable.Save | borrowings/models.py:54-64 | Writes only when the check passes; on failure the table is unchanged and the error is returned; a new record receives the next key; the table invariant (unique keys, every row accepted on its borrow day) is kept |
| BookModels.ParseCover | books/models.py:6-12 | A stored cover is exactly "HARD" or "SOFT", and maps back to its text |
| BookModels.CoverRoundTrip | books/models.py:6-8 | Each cover choice reads back from its stored text |
| BookModels.FieldErrors | books/models.py:10-14 | No field error iff title and author are non-blank with at most 255 characters, the cover is a choice, inventory is non-negative and the fee has at most 7 digits |
| BookModels.Validate | books/models.py:10-14 | A valid book is produced iff there is no field error; it carries the given values; otherwise all field errors are returned |
| BookModels.AddBook | books/models.py:10-14 | A book is added iff its fields are valid and its title is not taken; title uniqueness is checked only for a title that passed its field checks; a valid catalog stays valid |
| BookModels.StrIdentifiesBook | books/models.py:10-17 | `BookModels.Str`, the string form (the title), names exactly one book of a valid catalog |
| BookModels.TitleLeTotal | books/models.py:19-20 | Any two titles are comparable in the title order |
| BookModels.TitleLeTransitive | books/models.py:19-20 | The title order is transitive |
| BookModels.TitleLeAntisymmetric | books/models.py:19-20 | Titles ordered both ways are equal |
| BookModels.InsertByTitle | books/models.py:19-20 | Inserting into a title-ordered list keeps it ordered and adds exactly that book |
| BookModels.OrderByTitle | books/models.py:19-20 | The default listing is ascending by title and holds the same books with the same multiplicities |
| BookPermissions.HasPermission | books/permissions.py:9-11 | Staff are allowed every method; anyone else exactly GET, HEAD and OPTIONS |
| BookPermissions.ReadsOpenToAll | books/permissions.py:11 | GET, HEAD and OPTIONS are allowed to every caller, anonymous included |
| BookPermissions.WritesOnlyForStaff | books/permissions.py:10-11 | POST, PUT, PATCH and DELETE are allowed iff the caller is staff |
| BookPermissions.WriteTruthTable | books/tests/tests.py:44-163 | Anonymous and authenticated non-staff callers are denied POST, PATCH and DELETE; staff are allowed them |
| BookPermissions.StaffMonotone | books/permissions.py:11 | A method allowed to a non-staff caller is allowed to a staff caller |
| BorrowingPermissions.HasPermission | borrowings/permissions.py:10-18 | Staff are allowed every method; an anonymous caller none; an authenticated non-staff caller exactly GET and POST |
| BorrowingPermissions.MemberTruthTable | borrowings/permissions.py:13-15 | An authenticated non-staff caller may GET and POST but not PATCH, PUT or DELETE |
| BorrowingPermissions.AnonymousRefused | borrowings/permissions.py:13-17 | An anonymous caller is denied every method, GET included |
| BorrowingPermissions.HeadAndOptionsStaffOnly | borrowings/permissions.py:13 | HEAD and OPTIONS are denied to non-staff callers, although the book rule grants them |
| BorrowingPermissions.DependsOnlyOnFlags | borrowings/permissions.py:10-18 | Callers with the same authentication and staff flags get the same answer |
| Seqs.Filter | borrowings/views.py:17 | A filter keeps exactly the rows that satisfy its condition, each as many times as it occurs in the input, never adds one, and keeps all rows when all satisfy it |
| BorrowingViews.GetQueryset | borrowings/views.py:14-18 | Staff see all borrowings; others see exactly their own, each once per occurrence in the table; the result never holds a row not in the table |
| BorrowingViews.QuerysetIgnoresOthers | borrowings/views.py:16-17 | Appending other users' borrowings to the table leaves a non-staff caller's view unchanged, order and multiplicity included |
| BorrowingViews.GetSerializerClass | borrowings/views.py:20-23 | The list serializer iff the action is "list" or "retrieve"; the detail serializer otherwise, an absent action included |
| BorrowingViews.WritesUseDetail | borrowings/views.py:20-23 | create, update, partial_update and destroy use the detail serializer |
| BorrowingViews.StampCaller | borrowings/views.py:25-26 | The record to create belongs to the caller and carries the payload's dates and book |
| BorrowingViews.PayloadUserIgnored | borrowings/views.py:25-26 | The user named in the payload has no effect on the created record |
| BorrowingViews.PerformCreate | borrowings/views.py:25-26 | Creation succeeds iff the dates pass the check; the appended row belongs to the caller and takes the next key, which advances by one; on failure the table is unchanged |
| Dates.AddDays | borrowings/tasks.py:13 | Adding days yields the shifted day, or nothing outside the representable range (Python's OverflowError) |
| Dates.FromOrdinalInverse | borrowings/tasks.py:20 | The calendar date a day number renders as is a real date whose ordinal is that day number |
| Dates.IsoFormatRoundTrip | borrowings/tasks.py:20 | `Dates.IsoFormat` (`str(date)`) renders a date as ten characters YYYY-MM-DD from which the day number reads back |
| BorrowingTasks.SelectOverdue | borrowings/tasks.py:12-14 | A row is selected iff it has no actual return date and is due by the limit, as often as it occurs in the table and no more; a returned borrowing is never selected |
| BorrowingTasks.OverdueMessageNamesDate | borrowings/tasks.py:17-21 | Each `BorrowingTasks.OverdueMessage` ends with the borrowing's expected return date, which reads back from it |
| BorrowingTasks.OverdueMessages | borrowings/tasks.py:15-21 | As many overdue messages as selected borrowings |
| BorrowingTasks.OverdueMessageAt | borrowings/tasks.py:15-21 | The i-th message is the one for the i-th selected borrowing |
| BorrowingTasks.OverdueMessagesStep | borrowings/tasks.py:16-21 | Each loop iteration appends exactly the message of the next borrowing |
| BorrowingTasks.NotifyEach | borrowings/tasks.py:16-21 | The loop appends to the outbox one message per overdue borrowing, in order, and nothing else |
| BorrowingTasks.ReportShape | borrowings/tasks.py:15-25 | `BorrowingTasks.Report`: a run sends max(1, number selected) messages: one per selected borrowing, or exactly "No borrowings overdue today!" |
| BorrowingTasks.CheckOverdueBorrowings | borrowings/tasks.py:11-25 | Appends to the outbox exactly the report for the borrowings due by tomorrow; fails with nothing sent when tomorrow overflows; writes no borrowing |

## Left out

- Inventory decrement on borrowing, the out-of-stock refusal, the `return/` action with its inventory increment, and the `is_active` / `user_id` list filters: the tests expect them (borrowings/tests/tests.py:93, 107-108, 115-120, 134-135, 163, 176), but no code in the modelled files implements them.
- The Telegram call (borrowings/telegram_notifications.py) is network I/O; a send is modelled as appending its text to the outbox, and every send is assumed to succeed. In the source a failed send raises out of `asyncio.run`, ending the loop, so later overdue borrowings get no message; the model does not capture that.
- `asyncio.run` and the Celery `@shared_task` wrapper are scheduling plumbing; the periodic trigger is outside the model.
- borrowings/urls.py, books/views.py and borrowings/serializers.py are routing and declarative field lists with no logic of their own; the serializer classes appear only as names.
- The 401/403 distinction comes from the authentication layer, not the access rules, which are modelled as booleans. The `view` argument of `has_permission` is not read by either rule and is not a parameter.
- Persistence, foreign-key cascades and database-level uniqueness enforcement: tables are sequences. Referential integrity is a precondition of the overdue check (`ReferencesResolve`).
- `save`'s `force_insert`, `force_update`, `using` and `update_fields` arguments are passed to the database layer; `Save` models the default behaviour, an update by primary key or else an insert.
- BorrowingModels.BorrowingTable.Save: a row that carries an id stands for an instance loaded from the table, so saving it updates that row. `full_clean`'s `validate_unique` refuses a new instance whose explicitly chosen primary key is already taken; the model cannot tell such an instance from a loaded one and does not model that check, so its success condition is `clean` alone.
- `Borrowing.full_clean` also runs field-level checks (required dates, existing book and user); the model's dates are always present and only `clean`'s validator is modelled.
- `Borrowing.__str__` (borrowings/models.py:66-70) renders a display text no modelled operation uses.
- user/models.py is not part of this model: a user's string form in the overdue message is supplied as data (`users`).
- `date.today()` is not read: `today` is a parameter. `borrow_date` has no default (borrowings/models.py:15 passes a date as the field's verbose name), so it is caller-supplied.
- BookModels.FieldErrors: a fee written with more than two decimal places is refused by the decimal validator, but cannot be expressed in integer cents.
- BookModels.FieldErrors: the upper bound of `inventory` depends on the database backend and is not modelled.
- BookModels.OrderByTitle: titles are compared by code point, as Python compares strings; a database collation may order them differently.
- BorrowingViews.GetQueryset: takes an authenticated account, since the access rule refuses anonymous callers before the queryset is built; the order of the rows is the table's order, which the source leaves unspecified.
- BorrowingViews.PerformCreate: takes an authenticated account for the same reason.
- BorrowingTasks.CheckOverdueBorrowings: sends in table order, which the source leaves unspecified.
