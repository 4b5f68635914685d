/** The `Book` record (books/models.py): its field constraints, the cover
    choices, the default ordering by title and its string form. The daily
    fee is a fixed-point decimal with two places, held here as cents. */
module BookModels {
  import opened Wrappers

  type BookId = nat

  /** `Book.CoverChoices` */
  datatype Cover = Hard | Soft

  /** The stored value of a cover choice. */
  function CoverName(c: Cover): string
  {
    match c
    case Hard => "HARD"
    case Soft => "SOFT"
  }

  /** The cover choice a stored text stands for, if any. */
  function ParseCover(s: string): (r: Option<Cover>)
    ensures r.Some? <==> s == "HARD" || s == "SOFT"
    ensures r.Some? ==> CoverName(r.value) == s
  {
    if s == "HARD" then Some(Hard) else if s == "SOFT" then Some(Soft) else None
  }

  lemma CoverRoundTrip(c: Cover)
    ensures ParseCover(CoverName(c)) == Some(c)
  {
  }

  const MaxTitleLength: nat := 255
  const MaxAuthorLength: nat := 255
  /** `max_digits=7, decimal_places=2`: at most 99999.99 in absolute value. */
  const FeeCentsLimit: int := 10_000_000

  datatype Book = Book(title: string, author: string, cover: Cover, inventory: int, dailyFee: int)

  /** The field constraints of a stored book. */
  predicate ValidBook(b: Book)
  {
    && 0 < |b.title| <= MaxTitleLength
    && 0 < |b.author| <= MaxAuthorLength
    && b.inventory >= 0
    && -FeeCentsLimit < b.dailyFee < FeeCentsLimit
  }

  /** The raw values offered for a new book, before validation. */
  datatype BookFields = BookFields(title: string, author: string, cover: string, inventory: int, dailyFee: int)

  datatype FieldError =
    | TitleBlank | TitleTooLong
    | AuthorBlank | AuthorTooLong
    | CoverNotAChoice
    | InventoryNegative
    | FeeTooManyDigits
    | TitleNotUnique

  /** The error of a required `CharField(max_length=limit)`, if any. */
  function CharFieldError(s: string, limit: nat, blank: FieldError, tooLong: FieldError): seq<FieldError>
  {
    if |s| == 0 then [blank] else if |s| > limit then [tooLong] else []
  }

  /** Field-by-field validation in declaration order: title, author, cover,
      inventory, daily fee; at most one error per field. */
  function FieldErrors(f: BookFields): (errs: seq<FieldError>)
    ensures errs == [] <==>
      && 0 < |f.title| <= MaxTitleLength
      && 0 < |f.author| <= MaxAuthorLength
      && ParseCover(f.cover).Some?
      && f.inventory >= 0
      && -FeeCentsLimit < f.dailyFee < FeeCentsLimit
    ensures TitleNotUnique !in errs
    ensures |errs| <= 5
  {
    CharFieldError(f.title, MaxTitleLength, TitleBlank, TitleTooLong)
    + CharFieldError(f.author, MaxAuthorLength, AuthorBlank, AuthorTooLong)
    + (if ParseCover(f.cover).None? then [CoverNotAChoice] else [])
    + (if f.inventory < 0 then [InventoryNegative] else [])
    + (if f.dailyFee <= -FeeCentsLimit || FeeCentsLimit <= f.dailyFee then [FeeTooManyDigits] else [])
  }

  /** The book the fields describe, or every field error found. */
  function Validate(f: BookFields): (r: Result<Book, seq<FieldError>>)
    ensures r.Success? <==> FieldErrors(f) == []
    ensures r.Success? ==> ValidBook(r.value)
    ensures r.Success? ==> && r.value.title == f.title && r.value.author == f.author
                           && CoverName(r.value.cover) == f.cover
                           && r.value.inventory == f.inventory && r.value.dailyFee == f.dailyFee
    ensures r.Failure? ==> r.error == FieldErrors(f) && r.error != []
  {
    var errs := FieldErrors(f);
    if errs != [] then Failure(errs)
    else Success(Book(f.title, f.author, ParseCover(f.cover).value, f.inventory, f.dailyFee))
  }

  /** `title` is unique: no two books of the catalog share one. */
  predicate UniqueTitles(catalog: seq<Book>)
  {
    forall i, j :: 0 <= i < j < |catalog| ==> catalog[i].title != catalog[j].title
  }

  predicate ValidCatalog(catalog: seq<Book>)
  {
    (forall i :: 0 <= i < |catalog| ==> ValidBook(catalog[i])) && UniqueTitles(catalog)
  }

  predicate TitleTaken(catalog: seq<Book>, title: string)
  {
    exists i :: 0 <= i < |catalog| && catalog[i].title == title
  }

  /** Creating a book: the field errors, then the uniqueness of the title,
      which is checked only when the title itself passed its field checks. */
  function AddBook(catalog: seq<Book>, f: BookFields): (r: Result<seq<Book>, seq<FieldError>>)
    ensures r.Success? <==> Validate(f).Success? && !TitleTaken(catalog, f.title)
    ensures r.Success? ==> r.value == catalog + [Validate(f).value]
    ensures r.Failure? ==> r.error != []
    ensures r.Failure? ==> (TitleNotUnique in r.error <==>
                              CharFieldError(f.title, MaxTitleLength, TitleBlank, TitleTooLong) == []
                              && TitleTaken(catalog, f.title))
    ensures ValidCatalog(catalog) && r.Success? ==> ValidCatalog(r.value)
  {
    var fieldErrs := FieldErrors(f);
    var titleChecked := CharFieldError(f.title, MaxTitleLength, TitleBlank, TitleTooLong) == [];
    var errs := fieldErrs + (if titleChecked && TitleTaken(catalog, f.title) then [TitleNotUnique] else []);
    if errs != [] then Failure(errs)
    else Success(catalog + [Validate(f).value])
  }

  /** `Book.__str__` */
  function Str(b: Book): string
  {
    b.title
  }

  /** In a catalog with unique titles the string form names one book. */
  lemma StrIdentifiesBook(catalog: seq<Book>, i: nat, j: nat)
    requires ValidCatalog(catalog) && i < |catalog| && j < |catalog|
    ensures Str(catalog[i]) == Str(catalog[j]) <==> i == j
  {
  }

  /** Python's (and the ordering's) comparison of two titles: code point by
      code point, a proper prefix first. */
  predicate TitleLe(a: string, b: string)
  {
    |a| == 0 || (|b| > 0 && (a[0] < b[0] || (a[0] == b[0] && TitleLe(a[1..], b[1..]))))
  }

  lemma {:induction false} TitleLeTotal(a: string, b: string)
    ensures TitleLe(a, b) || TitleLe(b, a)
  {
    if |a| > 0 && |b| > 0 && a[0] == b[0] {
      TitleLeTotal(a[1..], b[1..]);
    }
  }

  lemma {:induction false} TitleLeTransitive(a: string, b: string, c: string)
    requires TitleLe(a, b) && TitleLe(b, c)
    ensures TitleLe(a, c)
  {
    if |a| > 0 && a[0] == b[0] && b[0] == c[0] {
      TitleLeTransitive(a[1..], b[1..], c[1..]);
    }
  }

  lemma {:induction false} TitleLeAntisymmetric(a: string, b: string)
    requires TitleLe(a, b) && TitleLe(b, a)
    ensures a == b
  {
    if |a| > 0 {
      TitleLeAntisymmetric(a[1..], b[1..]);
      assert a == [a[0]] + a[1..] && b == [b[0]] + b[1..];
    }
  }

  /** `Meta.ordering = ["title"]`: ascending by title. */
  predicate OrderedByTitle(books: seq<Book>)
  {
    forall i, j :: 0 <= i < j < |books| ==> TitleLe(books[i].title, books[j].title)
  }

  function InsertByTitle(b: Book, sorted: seq<Book>): (r: seq<Book>)
    requires OrderedByTitle(sorted)
    ensures OrderedByTitle(r)
    ensures multiset(r) == multiset(sorted) + multiset{b}
  {
    if sorted == [] then [b]
    else if TitleLe(b.title, sorted[0].title) then
      assert forall j :: 0 <= j < |sorted| ==> TitleLe(b.title, sorted[j].title) by {
        forall j | 0 <= j < |sorted| ensures TitleLe(b.title, sorted[j].title) {
          if j > 0 { TitleLeTransitive(b.title, sorted[0].title, sorted[j].title); }
        }
      }
      [b] + sorted
    else
      var rest := InsertByTitle(b, sorted[1..]);
      TitleLeTotal(b.title, sorted[0].title);
      assert sorted == [sorted[0]] + sorted[1..];
      assert forall x :: x in rest ==> TitleLe(sorted[0].title, x.title) by {
        forall x | x in rest ensures TitleLe(sorted[0].title, x.title) {
          assert x in multiset(rest);
          if x != b {
            assert x in multiset(sorted[1..]);
            var j :| 0 <= j < |sorted[1..]| && sorted[1..][j] == x;
            assert sorted[j + 1] == x;
          }
        }
      }
      [sorted[0]] + rest
  }

  /** A catalog listed in its default order: ordered by title, and the same
      books with the same multiplicities. */
  function OrderByTitle(catalog: seq<Book>): (r: seq<Book>)
    ensures OrderedByTitle(r)
    ensures multiset(r) == multiset(catalog)
  {
    if catalog == [] then []
    else
      assert catalog == [catalog[0]] + catalog[1..];
      InsertByTitle(catalog[0], OrderByTitle(catalog[1..]))
  }
}
