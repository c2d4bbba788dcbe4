/** The catalog's records and the rules the model layer declares for them: field bounds and
    defaults, the publication-year check constraint, the default orderings, the cascade rules of
    the foreign keys, the short previews of long texts, and a book's average rating. */
module CatalogModels {
  import opened Wrappers
  import opened Http
  import opened Text
  import opened Sorting
  import opened Users

  const NameMaxLength := 200
  const BioMaxLength := 1000
  const TitleMaxLength := 200
  const SummaryMaxLength := 1000
  const ContentMaxLength := 1000

  /** The check constraint publication_year_gte_0_lte_2999. */
  const MinPublicationYear := 0
  const MaxPublicationYear := 2999
  /** The largest value a PositiveSmallIntegerField accepts (a PostgreSQL smallint). */
  const SmallIntMax := 32767

  const PhotoDir := "authors/"
  const DefaultPhoto := "authors/no-photo.webp"
  const PosterDir := "posters/"
  const DefaultPoster := "posters/no-poster.jpg"

  /** How many characters bio_short and summary_short keep before the ellipsis. */
  const ShortLength := 100
  const Ellipsis := "..."

  const MinRate := 1
  const MaxRate := 5

  datatype Author = Author(id: Id, name: string, bio: string, photo: string)

  datatype Book = Book(
    id: Id, title: string, author: Id, summary: string, publicationYear: int, poster: string,
    addedBy: Option<Id>)

  datatype BookComment = BookComment(id: Id, user: Id, book: Id, content: string, createdAt: nat)

  /** A user's rate of a book; there is at most one per (user, book). */
  datatype BookRating = BookRating(user: Id, book: Id, rate: int)

  /** The tables of the database. */
  datatype Db = Db(
    users: seq<User>, authors: seq<Author>, books: seq<Book>, comments: seq<BookComment>,
    ratings: seq<BookRating>)

  // ---------------------------------------------------------------------------------------
  // Field bounds and the check constraint

  /** A required text field: not blank and at most `max` characters long. */
  predicate TextOk(s: string, max: nat) {
    0 < |s| <= max
  }

  predicate YearInRange(year: int) {
    MinPublicationYear <= year <= MaxPublicationYear
  }

  predicate ValidAuthor(a: Author) {
    TextOk(a.name, NameMaxLength) && TextOk(a.bio, BioMaxLength)
  }

  predicate ValidBook(b: Book) {
    TextOk(b.title, TitleMaxLength) && TextOk(b.summary, SummaryMaxLength) && YearInRange(b.publicationYear)
  }

  predicate ValidRate(rate: int) {
    MinRate <= rate <= MaxRate
  }

  function AuthorIds(authors: seq<Author>): set<Id> {
    set a | a in authors :: a.id
  }

  function BookIds(books: seq<Book>): set<Id> {
    set b | b in books :: b.id
  }

  function CommentIds(comments: seq<BookComment>): set<Id> {
    set c | c in comments :: c.id
  }

  ghost predicate AuthorsValid(authors: seq<Author>) {
    && Distinct(authors)
    && (forall a, a' :: a in authors && a' in authors && a.id == a'.id ==> a == a')
    && (forall a :: a in authors ==> ValidAuthor(a))
  }

  ghost predicate BooksValid(db: Db) {
    && Distinct(db.books)
    && (forall b, b' :: b in db.books && b' in db.books && b.id == b'.id ==> b == b')
    && (forall b :: b in db.books ==>
          && ValidBook(b)
          && b.author in AuthorIds(db.authors)
          && (b.addedBy.Some? ==> b.addedBy.value in UserIds(db.users)))
  }

  ghost predicate CommentsValid(db: Db) {
    && Distinct(db.comments)
    && (forall c, c' :: c in db.comments && c' in db.comments && c.id == c'.id ==> c == c')
    && (forall c :: c in db.comments ==>
          && TextOk(c.content, ContentMaxLength)
          && c.user in UserIds(db.users)
          && c.book in BookIds(db.books))
  }

  ghost predicate RatingsValid(db: Db) {
    && (forall x, y :: x in db.ratings && y in db.ratings && x.user == y.user && x.book == y.book ==> x == y)
    && Distinct(db.ratings)
    && (forall x :: x in db.ratings ==>
          && ValidRate(x.rate)
          && x.user in UserIds(db.users)
          && x.book in BookIds(db.books))
  }

  /** Every constraint the schema and the forms put on stored rows, and every foreign key
      pointing at an existing row. */
  ghost predicate ValidDb(db: Db) {
    && ValidUsers(db.users)
    && AuthorsValid(db.authors)
    && BooksValid(db)
    && CommentsValid(db)
    && RatingsValid(db)
  }

  // ---------------------------------------------------------------------------------------
  // Lookups by primary key (get_object, raising HTTP 404 when None)

  function BookById(books: seq<Book>, id: Id): (r: Option<Book>)
    ensures r.Some? ==> r.value in books && r.value.id == id
    ensures r.None? <==> id !in BookIds(books)
  {
    Find(books, (b: Book) => b.id == id)
  }

  function CommentById(comments: seq<BookComment>, id: Id): (r: Option<BookComment>)
    ensures r.Some? ==> r.value in comments && r.value.id == id
    ensures r.None? <==> id !in CommentIds(comments)
  {
    Find(comments, (c: BookComment) => c.id == id)
  }

  function AuthorById(authors: seq<Author>, id: Id): (r: Option<Author>)
    ensures r.Some? ==> r.value in authors && r.value.id == id
    ensures r.None? <==> id !in AuthorIds(authors)
  {
    Find(authors, (a: Author) => a.id == id)
  }

  /** The name of a book's author, as `author__name` reads it. */
  function AuthorName(authors: seq<Author>, id: Id): string {
    match AuthorById(authors, id)
    case Some(a) => a.name
    case None => ""
  }

  // ---------------------------------------------------------------------------------------
  // bio_short and summary_short

  function Shorten(text: string): string {
    text[..Min(|text|, ShortLength)] + Ellipsis
  }

  /** Author.bio_short: the first 100 characters of the bio (all of it if shorter), then "...". */
  function BioShort(a: Author): (r: string)
    ensures |r| <= ShortLength + |Ellipsis|
    ensures |r| >= |Ellipsis| && StartsWith(a.bio, r[..|r| - |Ellipsis|])
    ensures r[|r| - |Ellipsis|..] == Ellipsis
    ensures |a.bio| <= ShortLength ==> r == a.bio + Ellipsis
    ensures |a.bio| > ShortLength ==> |r| == ShortLength + |Ellipsis|
  {
    Shorten(a.bio)
  }

  /** Book.summary_short: the first 100 characters of the summary, then "...". */
  function SummaryShort(b: Book): (r: string)
    ensures |r| <= ShortLength + |Ellipsis|
    ensures |r| >= |Ellipsis| && StartsWith(b.summary, r[..|r| - |Ellipsis|])
    ensures r[|r| - |Ellipsis|..] == Ellipsis
    ensures |b.summary| <= ShortLength ==> r == b.summary + Ellipsis
    ensures |b.summary| > ShortLength ==> |r| == ShortLength + |Ellipsis|
  {
    Shorten(b.summary)
  }

  // ---------------------------------------------------------------------------------------
  // Creating records: form validation and defaults

  /** An uploaded file is stored under `dir`; without one the field takes its default. The
      upload is given by the name the file storage chose for it. */
  function UploadPath(dir: string, upload: Option<string>, default: string): string {
    match upload
    case Some(name) => dir + name
    case None => default
  }

  /** The fields of an author as submitted; `photo` is the name of an uploaded file, if any. */
  datatype AuthorInput = AuthorInput(name: Option<string>, bio: Option<string>, photo: Option<string>)

  /** Author.full_clean(): which fields break their bounds. */
  function AuthorErrors(f: AuthorInput): (errors: set<Field>)
    ensures errors <= {Name, Bio}
    ensures errors == {} <==> f.name.Some? && f.bio.Some? && TextOk(f.name.value, NameMaxLength) && TextOk(f.bio.value, BioMaxLength)
  {
    (if f.name.Some? && TextOk(f.name.value, NameMaxLength) then {} else {Name})
    + (if f.bio.Some? && TextOk(f.bio.value, BioMaxLength) then {} else {Bio})
  }

  /** The author that an error-free submission creates: valid, and with the placeholder photo
      when no file was uploaded. */
  function NewAuthor(id: Id, f: AuthorInput): (a: Author)
    requires AuthorErrors(f) == {}
    ensures ValidAuthor(a) && a.id == id && a.name == f.name.value && a.bio == f.bio.value
    ensures f.photo.None? ==> a.photo == DefaultPhoto
    ensures f.photo.Some? ==> StartsWith(a.photo, PhotoDir)
  {
    Author(id, f.name.value, f.bio.value, UploadPath(PhotoDir, f.photo, DefaultPhoto))
  }

  /** The fields of BookForm as posted: the author as a primary key, the poster as the name of
      an uploaded file. */
  datatype BookInput = BookInput(
    title: Option<string>, author: Option<Id>, summary: Option<string>, publicationYear: Option<int>,
    poster: Option<string>)

  predicate TitleError(f: BookInput) {
    f.title.None? || !TextOk(f.title.value, TitleMaxLength)
  }

  predicate AuthorError(authors: seq<Author>, f: BookInput) {
    f.author.None? || f.author.value !in AuthorIds(authors)
  }

  predicate SummaryError(f: BookInput) {
    f.summary.None? || !TextOk(f.summary.value, SummaryMaxLength)
  }

  /** The year field's own validation: required, and within the bounds of the column type. */
  predicate YearFieldError(f: BookInput) {
    f.publicationYear.None? || f.publicationYear.value < 0 || f.publicationYear.value > SmallIntMax
  }

  /** The check constraint, which the model form validates only once the field itself is valid,
      and reports as an error of the whole form. */
  predicate ConstraintError(f: BookInput) {
    !YearFieldError(f) && !YearInRange(f.publicationYear.value)
  }

  /** BookForm.is_valid(): the fields with errors. A title or summary must be given and keep
      its length bound, the author must be an existing author, the year must be given and fit
      the column; the check constraint is an error of the whole form. */
  function BookErrors(authors: seq<Author>, f: BookInput): (errors: set<Field>)
    ensures errors <= {Title, AuthorField, Summary, PublicationYear, NonField}
    ensures Title in errors <==> f.title.None? || !(0 < |f.title.value| <= TitleMaxLength)
    ensures AuthorField in errors <==> f.author.None? || f.author.value !in AuthorIds(authors)
    ensures Summary in errors <==> f.summary.None? || !(0 < |f.summary.value| <= SummaryMaxLength)
    ensures PublicationYear in errors <==>
      f.publicationYear.None? || !(0 <= f.publicationYear.value <= SmallIntMax)
    ensures NonField in errors <==>
      f.publicationYear.Some? && 0 <= f.publicationYear.value <= SmallIntMax
      && !(MinPublicationYear <= f.publicationYear.value <= MaxPublicationYear)
    ensures errors == {} <==>
      && f.title.Some? && 0 < |f.title.value| <= TitleMaxLength
      && f.author.Some? && f.author.value in AuthorIds(authors)
      && f.summary.Some? && 0 < |f.summary.value| <= SummaryMaxLength
      && f.publicationYear.Some? && MinPublicationYear <= f.publicationYear.value <= MaxPublicationYear
  {
    (if TitleError(f) then {Title} else {})
    + (if AuthorError(authors, f) then {AuthorField} else {})
    + (if SummaryError(f) then {Summary} else {})
    + (if YearFieldError(f) then {PublicationYear} else {})
    + (if ConstraintError(f) then {NonField} else {})
  }

  /** A negative year is a field error; a year from 3000 to 32767 passes the field but fails the
      check constraint, so it is reported on the whole form; and no year outside [0, 2999] is
      ever accepted. */
  lemma YearErrorPlacement(authors: seq<Author>, f: BookInput)
    requires f.publicationYear.Some?
    ensures f.publicationYear.value < 0 ==>
      PublicationYear in BookErrors(authors, f) && NonField !in BookErrors(authors, f)
    ensures MaxPublicationYear < f.publicationYear.value <= SmallIntMax ==>
      NonField in BookErrors(authors, f) && PublicationYear !in BookErrors(authors, f)
    ensures !YearInRange(f.publicationYear.value) ==> BookErrors(authors, f) != {}
    ensures YearInRange(f.publicationYear.value) ==>
      PublicationYear !in BookErrors(authors, f) && NonField !in BookErrors(authors, f)
  {
  }

  /** The book an error-free form saves. */
  function BookFromForm(id: Id, f: BookInput, poster: string, addedBy: Option<Id>): Book
    requires f.title.Some? && f.author.Some? && f.summary.Some? && f.publicationYear.Some?
  {
    Book(id, f.title.value, f.author.value, f.summary.value, f.publicationYear.value, poster, addedBy)
  }

  /** A form without errors describes a book that satisfies every bound and the check
      constraint, and whose author exists. */
  lemma AcceptedFormIsValidBook(authors: seq<Author>, f: BookInput, id: Id, poster: string, addedBy: Option<Id>)
    requires BookErrors(authors, f) == {}
    ensures f.title.Some? && f.author.Some? && f.summary.Some? && f.publicationYear.Some?
    ensures ValidBook(BookFromForm(id, f, poster, addedBy))
    ensures f.author.value in AuthorIds(authors)
  {
    assert !TitleError(f) && !AuthorError(authors, f) && !SummaryError(f);
    assert !YearFieldError(f) && !ConstraintError(f);
  }

  /** The poster a new book gets: the uploaded file, or the placeholder. */
  function NewPoster(upload: Option<string>): (p: string)
    ensures upload.None? ==> p == DefaultPoster
    ensures upload.Some? ==> StartsWith(p, PosterDir) && p[|PosterDir|..] == upload.value
  {
    UploadPath(PosterDir, upload, DefaultPoster)
  }

  /** The poster after an update: a new upload replaces it, otherwise it stays. */
  function UpdatedPoster(current: string, upload: Option<string>): string {
    UploadPath(PosterDir, upload, current)
  }

  // ---------------------------------------------------------------------------------------
  // Ratings

  function RateSum(ratings: seq<BookRating>, book: Id): int {
    if ratings == [] then 0
    else (if ratings[0].book == book then ratings[0].rate else 0) + RateSum(ratings[1..], book)
  }

  function RateCount(ratings: seq<BookRating>, book: Id): nat {
    if ratings == [] then 0
    else (if ratings[0].book == book then 1 else 0) + RateCount(ratings[1..], book)
  }

  lemma {:induction false} RateCountZeroIffUnrated(ratings: seq<BookRating>, book: Id)
    ensures RateCount(ratings, book) == 0 <==> forall x :: x in ratings ==> x.book != book
  {
    if ratings != [] {
      assert ratings == [ratings[0]] + ratings[1..];
      RateCountZeroIffUnrated(ratings[1..], book);
    }
  }

  /** Book.average_rating: the exact mean of the book's rates; None when nobody rated it. */
  function AverageRating(ratings: seq<BookRating>, book: Id): (r: Option<real>)
    ensures r.None? <==> forall x :: x in ratings ==> x.book != book
  {
    RateCountZeroIffUnrated(ratings, book);
    var n := RateCount(ratings, book);
    if n == 0 then None else Some(RateSum(ratings, book) as real / n as real)
  }

  /** The rates of a book lie between count * MinRate and count * MaxRate. */
  lemma {:induction false} RateSumBounds(ratings: seq<BookRating>, book: Id)
    requires forall x :: x in ratings ==> ValidRate(x.rate)
    ensures MinRate * RateCount(ratings, book) <= RateSum(ratings, book) <= MaxRate * RateCount(ratings, book)
  {
    if ratings != [] {
      assert ratings[0] in ratings;
      assert forall x :: x in ratings[1..] ==> x in ratings;
      RateSumBounds(ratings[1..], book);
    }
  }

  /** With every rate between 1 and 5, so is the average. */
  lemma AverageWithinRateBounds(ratings: seq<BookRating>, book: Id)
    requires forall x :: x in ratings ==> ValidRate(x.rate)
    requires AverageRating(ratings, book).Some?
    ensures MinRate as real <= AverageRating(ratings, book).value <= MaxRate as real
  {
    RateSumBounds(ratings, book);
    var count := RateCount(ratings, book);
    var sum := RateSum(ratings, book);
    assert count > 0;
    MeanBounds(sum, count, MinRate, MaxRate);
  }

  /** A sum of `count` values each in [lo, hi] has its mean in [lo, hi]. */
  lemma MeanBounds(sum: int, count: int, lo: int, hi: int)
    requires count > 0 && lo * count <= sum <= hi * count
    ensures lo as real <= sum as real / count as real <= hi as real
  {
    var n := count as real;
    assert (lo * count) as real == lo as real * n;
    assert (hi * count) as real == hi as real * n;
    assert sum as real / n * n == sum as real;
  }

  lemma {:induction false} RateOfOthersIgnored(ratings: seq<BookRating>, x: BookRating, book: Id)
    requires x.book != book
    ensures RateSum(ratings + [x], book) == RateSum(ratings, book)
    ensures RateCount(ratings + [x], book) == RateCount(ratings, book)
  {
    if ratings == [] {
      assert [x][1..] == [];
    } else {
      assert (ratings + [x])[1..] == ratings[1..] + [x];
      RateOfOthersIgnored(ratings[1..], x, book);
    }
  }

  lemma {:induction false} RateAppended(ratings: seq<BookRating>, x: BookRating)
    ensures RateSum(ratings + [x], x.book) == RateSum(ratings, x.book) + x.rate
    ensures RateCount(ratings + [x], x.book) == RateCount(ratings, x.book) + 1
  {
    if ratings == [] {
      assert [x][1..] == [];
    } else {
      assert (ratings + [x])[1..] == ratings[1..] + [x];
      RateAppended(ratings[1..], x);
    }
  }

  /** The rating form's save: replaces the rater's earlier rating of the book, if any, by the
      new one; every other rating is kept. */
  function Upsert(ratings: seq<BookRating>, user: Id, book: Id, rate: int): (r: seq<BookRating>)
    ensures BookRating(user, book, rate) in r
    ensures forall x :: x in r <==>
      x == BookRating(user, book, rate) || (x in ratings && (x.user != user || x.book != book))
  {
    Filter(ratings, (x: BookRating) => x.user != user || x.book != book) + [BookRating(user, book, rate)]
  }

  /** After an upsert the rater has exactly one rating of the book, holding the new rate. */
  lemma UpsertLeavesOneRating(ratings: seq<BookRating>, user: Id, book: Id, rate: int)
    ensures forall x :: x in Upsert(ratings, user, book, rate) && x.user == user && x.book == book ==> x.rate == rate
    ensures multiset(Upsert(ratings, user, book, rate))[BookRating(user, book, rate)] == 1
  {
    var kept := Filter(ratings, (x: BookRating) => x.user != user || x.book != book);
    assert multiset(kept)[BookRating(user, book, rate)] == 0;
  }

  /** Rating 4 and then 5: one rating of 5 remains. */
  lemma RerateExample(ratings: seq<BookRating>, user: Id, book: Id)
    ensures forall x | x in Upsert(Upsert(ratings, user, book, 4), user, book, 5) && x.user == user && x.book == book ::
      x == BookRating(user, book, 5)
  {
  }

  /** The first rating of a book is its average. */
  lemma FirstRatingIsAverage(ratings: seq<BookRating>, user: Id, book: Id, rate: int)
    requires forall x :: x in ratings ==> x.book != book
    ensures AverageRating(Upsert(ratings, user, book, rate), book) == Some(rate as real)
  {
    var kept := Filter(ratings, (x: BookRating) => x.user != user || x.book != book);
    assert forall x :: x in kept ==> x in ratings;
    RateCountZeroIffUnrated(kept, book);
    RateSumZero(kept, book);
    RateAppended(kept, BookRating(user, book, rate));
    var all := Upsert(ratings, user, book, rate);
    assert all == kept + [BookRating(user, book, rate)];
    SoleRatingIsAverage(all, book, rate);
  }

  /** A book with one rating averages that rating. */
  lemma SoleRatingIsAverage(ratings: seq<BookRating>, book: Id, rate: int)
    requires RateSum(ratings, book) == rate && RateCount(ratings, book) == 1
    ensures AverageRating(ratings, book) == Some(rate as real)
  {
    assert rate as real / 1 as real == rate as real;
  }

  lemma {:induction false} RateSumZero(ratings: seq<BookRating>, book: Id)
    requires forall x :: x in ratings ==> x.book != book
    ensures RateSum(ratings, book) == 0
  {
    if ratings != [] {
      assert ratings[0] in ratings;
      assert forall x :: x in ratings[1..] ==> x in ratings;
      RateSumZero(ratings[1..], book);
    }
  }

  /** Rates 4 and 5 average 4.5. */
  lemma AverageExample(u1: Id, u2: Id, book: Id)
    ensures AverageRating([BookRating(u1, book, 4), BookRating(u2, book, 5)], book) == Some(4.5)
  {
    var rs := [BookRating(u1, book, 4), BookRating(u2, book, 5)];
    assert rs[1..] == [BookRating(u2, book, 5)];
    assert rs[1..][1..] == [];
    assert RateSum(rs[1..], book) == 5 && RateCount(rs[1..], book) == 1;
    assert RateSum(rs, book) == 9 && RateCount(rs, book) == 2;
    assert 9 as real / 2 as real == 4.5;
  }

  // ---------------------------------------------------------------------------------------
  // Default orderings

  /** Books order by title, then by their author's name. */
  predicate BookLe(authors: seq<Author>, x: Book, y: Book) {
    if x.title == y.title then StrLe(AuthorName(authors, x.author), AuthorName(authors, y.author))
    else StrLe(x.title, y.title)
  }

  function BookOrder(authors: seq<Author>): (Book, Book) -> bool {
    (x: Book, y: Book) => BookLe(authors, x, y)
  }

  lemma BookOrderIsTotalPreorder(authors: seq<Author>)
    ensures Total(BookOrder(authors)) && Transitive(BookOrder(authors))
  {
    forall x: Book, y: Book ensures BookLe(authors, x, y) || BookLe(authors, y, x) {
      StrLeTotal(x.title, y.title);
      StrLeTotal(AuthorName(authors, x.author), AuthorName(authors, y.author));
    }
    forall x: Book, y: Book, z: Book | BookLe(authors, x, y) && BookLe(authors, y, z)
      ensures BookLe(authors, x, z)
    {
      var nx, ny, nz := AuthorName(authors, x.author), AuthorName(authors, y.author), AuthorName(authors, z.author);
      if x.title == y.title && y.title == z.title {
        StrLeTransitive(nx, ny, nz);
      } else if x.title == y.title {
        assert StrLe(x.title, z.title) && x.title != z.title;
      } else if y.title == z.title {
        assert StrLe(x.title, z.title) && x.title != z.title;
      } else {
        StrLtLeTransitive(x.title, y.title, z.title);
      }
    }
    var le := BookOrder(authors);
    assert forall x, y :: le(x, y) == BookLe(authors, x, y);
  }

  /** Authors order by name. */
  function AuthorOrder(): (Author, Author) -> bool {
    (a: Author, b: Author) => StrLe(a.name, b.name)
  }

  lemma AuthorOrderIsTotalPreorder()
    ensures Total(AuthorOrder()) && Transitive(AuthorOrder())
  {
    forall a: Author, b: Author ensures StrLe(a.name, b.name) || StrLe(b.name, a.name) {
      StrLeTotal(a.name, b.name);
    }
    forall a: Author, b: Author, c: Author | StrLe(a.name, b.name) && StrLe(b.name, c.name)
      ensures StrLe(a.name, c.name)
    {
      StrLeTransitive(a.name, b.name, c.name);
    }
    var le := AuthorOrder();
    assert forall a, b :: le(a, b) == StrLe(a.name, b.name);
  }

  /** Comments order newest first. */
  function NewestFirst(): (BookComment, BookComment) -> bool {
    (c: BookComment, d: BookComment) => c.createdAt >= d.createdAt
  }

  lemma NewestFirstIsTotalPreorder()
    ensures Total(NewestFirst()) && Transitive(NewestFirst())
  {
  }

  /** A book's comments, newest first. */
  function CommentsOf(db: Db, book: Id): (r: seq<BookComment>)
    ensures forall c :: c in r <==> c in db.comments && c.book == book
    ensures forall i, j :: 0 <= i < j < |r| ==> r[i].createdAt >= r[j].createdAt
  {
    NewestFirstIsTotalPreorder();
    var r := SortBy(Filter(db.comments, (c: BookComment) => c.book == book), NewestFirst());
    assert Sorted(r, NewestFirst());
    r
  }

  /** A comment posted after every other comment of its book heads the book's listing. */
  lemma NewestCommentFirst(db: Db, c: BookComment)
    requires c in db.comments
    requires forall d :: d in db.comments && d != c && d.book == c.book ==> d.createdAt < c.createdAt
    ensures CommentsOf(db, c.book) != [] && CommentsOf(db, c.book)[0] == c
  {
    NewestFirstIsTotalPreorder();
    var r := CommentsOf(db, c.book);
    assert r == SortBy(Filter(db.comments, (d: BookComment) => d.book == c.book), NewestFirst());
    StrictFirstHeads(r, NewestFirst(), c);
  }

  // ---------------------------------------------------------------------------------------
  // Saving rows

  /** Saving a new comment with a fresh key, non-blank content of at most 1000 characters, an
      existing user and an existing book keeps the database valid. */
  lemma AddCommentKeepsValid(db: Db, c: BookComment)
    requires ValidDb(db) && c.id !in CommentIds(db.comments)
    requires TextOk(c.content, ContentMaxLength) && c.user in UserIds(db.users) && c.book in BookIds(db.books)
    ensures ValidDb(db.(comments := db.comments + [c]))
  {
    assert c !in db.comments;
    DistinctAppend(db.comments, c);
  }

  /** Saving a rating of an existing book by an existing user, with a rate from 1 to 5, keeps
      the database valid: still one rating per (user, book). */
  lemma UpsertKeepsValid(db: Db, user: Id, book: Id, rate: int)
    requires ValidDb(db) && user in UserIds(db.users) && book in BookIds(db.books) && ValidRate(rate)
    ensures ValidDb(db.(ratings := Upsert(db.ratings, user, book, rate)))
  {
    var p := (x: BookRating) => x.user != user || x.book != book;
    var kept := Filter(db.ratings, p);
    var y := BookRating(user, book, rate);
    FilterKeepsDistinct(db.ratings, p);
    assert y !in kept;
    DistinctAppend(kept, y);
  }

  /** Saving a new valid book with a fresh key, an existing author and an existing (or no)
      adding user keeps the database valid. */
  lemma AddBookKeepsValid(db: Db, b: Book)
    requires ValidDb(db) && b.id !in BookIds(db.books) && ValidBook(b) && b.author in AuthorIds(db.authors)
    requires b.addedBy.Some? ==> b.addedBy.value in UserIds(db.users)
    ensures ValidDb(db.(books := db.books + [b]))
  {
    assert b !in db.books;
    DistinctAppend(db.books, b);
    var r := db.(books := db.books + [b]);
    assert BookIds(db.books) <= BookIds(r.books);
  }

  /** UPDATE of the row whose key is `b.id`: that row becomes `b`, every other row stays. */
  function ReplaceBook(books: seq<Book>, b: Book): (r: seq<Book>)
    ensures |r| == |books|
    ensures b.id in BookIds(books) ==> b in r
    ensures forall x :: x in r <==> (x == b && b.id in BookIds(books)) || (x in books && x.id != b.id)
  {
    var r := seq(|books|, i requires 0 <= i < |books| => if books[i].id == b.id then b else books[i]);
    assert forall x :: x in r <==> (x == b && b.id in BookIds(books)) || (x in books && x.id != b.id) by {
      forall x | x in r ensures (x == b && b.id in BookIds(books)) || (x in books && x.id != b.id) {
        var i :| 0 <= i < |r| && r[i] == x;
        assert books[i] in books;
      }
      forall x | x in books && x.id != b.id ensures x in r {
        var i :| 0 <= i < |books| && books[i] == x;
        assert r[i] == x;
      }
      if b.id in BookIds(books) {
        var i :| 0 <= i < |books| && books[i].id == b.id;
        assert r[i] == b;
      }
    }
    r
  }

  /** After an update, looking up the updated key finds the new row, and every other key finds
      what it found before. */
  lemma {:induction false} ReplaceBookLookup(books: seq<Book>, b: Book, k: Id)
    ensures BookById(ReplaceBook(books, b), k) ==
      if k == b.id && k in BookIds(books) then Some(b) else BookById(books, k)
  {
    if books != [] {
      var r := ReplaceBook(books, b);
      assert r[1..] == ReplaceBook(books[1..], b);
      assert books == [books[0]] + books[1..];
      assert BookIds(books) == {books[0].id} + BookIds(books[1..]);
      ReplaceBookLookup(books[1..], b, k);
    }
  }

  /** Replacing a row by one with the same key keeps the set of keys, and every row is either
      the new one or an old one. */
  lemma ReplaceBookKeepsIds(books: seq<Book>, b: Book)
    requires b.id in BookIds(books)
    ensures BookIds(ReplaceBook(books, b)) == BookIds(books)
    ensures forall x :: x in ReplaceBook(books, b) ==> x == b || x in books
  {
    var r := ReplaceBook(books, b);
    forall k | k in BookIds(books) ensures k in BookIds(r) {
      var i :| 0 <= i < |books| && books[i].id == k;
      assert r[i] in r;
    }
    forall x | x in r ensures x.id in BookIds(books) && (x == b || x in books) {
      var i :| 0 <= i < |r| && r[i] == x;
      assert books[i] in books;
    }
  }

  /** Replacing a row by one with the same key keeps the rows distinct and their keys unique. */
  lemma ReplaceBookKeepsKeys(books: seq<Book>, b: Book)
    requires Distinct(books) && b.id in BookIds(books)
    requires forall x, y :: x in books && y in books && x.id == y.id ==> x == y
    ensures Distinct(ReplaceBook(books, b))
    ensures forall x, y :: x in ReplaceBook(books, b) && y in ReplaceBook(books, b) && x.id == y.id ==> x == y
  {
    var r := ReplaceBook(books, b);
    forall i, j | 0 <= i < j < |r| ensures r[i] != r[j] {
      assert books[i] in books && books[j] in books;
      assert books[i] != books[j];
    }
    forall x, y | x in r && y in r && x.id == y.id ensures x == y {
      var i :| 0 <= i < |r| && r[i] == x;
      var j :| 0 <= j < |r| && r[j] == y;
      assert books[i] in books && books[j] in books;
    }
  }

  /** Updating an existing book with valid fields keeps the database valid, and keeps the set of
      book keys. */
  lemma ReplaceBookKeepsValid(db: Db, b: Book)
    requires ValidDb(db) && b.id in BookIds(db.books) && ValidBook(b) && b.author in AuthorIds(db.authors)
    requires b.addedBy.Some? ==> b.addedBy.value in UserIds(db.users)
    ensures BookIds(ReplaceBook(db.books, b)) == BookIds(db.books)
    ensures ValidDb(db.(books := ReplaceBook(db.books, b)))
  {
    ReplaceBookKeepsIds(db.books, b);
    ReplaceBookKeepsKeys(db.books, b);
  }

  /** A new user that keeps the user table valid keeps the whole database valid. */
  lemma AddUserKeepsValid(db: Db, u: User)
    requires ValidDb(db) && ValidUsers(db.users + [u])
    ensures ValidDb(db.(users := db.users + [u]))
  {
    assert UserIds(db.users) <= UserIds(db.users + [u]);
  }

  // ---------------------------------------------------------------------------------------
  // Cascade rules

  /** Deleting a book deletes its comments and its ratings (on_delete=CASCADE). */
  function DeleteBook(db: Db, id: Id): (r: Db)
    ensures r.users == db.users && r.authors == db.authors
    ensures forall b :: b in r.books <==> b in db.books && b.id != id
    ensures forall c :: c in r.comments <==> c in db.comments && c.book != id
    ensures forall x :: x in r.ratings <==> x in db.ratings && x.book != id
  {
    db.(books := Filter(db.books, (b: Book) => b.id != id),
        comments := Filter(db.comments, (c: BookComment) => c.book != id),
        ratings := Filter(db.ratings, (x: BookRating) => x.book != id))
  }

  lemma DeleteBookKeepsValid(db: Db, id: Id)
    requires ValidDb(db)
    ensures ValidDb(DeleteBook(db, id))
  {
    var r := DeleteBook(db, id);
    FilterKeepsDistinct(db.books, (b: Book) => b.id != id);
    FilterKeepsDistinct(db.comments, (c: BookComment) => c.book != id);
    FilterKeepsDistinct(db.ratings, (x: BookRating) => x.book != id);
    forall c | c in r.comments ensures c.book in BookIds(r.books) {
      var b :| b in db.books && b.id == c.book;
      assert b in r.books;
    }
    forall x | x in r.ratings ensures x.book in BookIds(r.books) {
      var b :| b in db.books && b.id == x.book;
      assert b in r.books;
    }
  }

  /** Deleting a comment touches nothing else. */
  function DeleteComment(db: Db, id: Id): (r: Db)
    ensures r.users == db.users && r.authors == db.authors && r.books == db.books && r.ratings == db.ratings
    ensures forall c :: c in r.comments <==> c in db.comments && c.id != id
  {
    db.(comments := Filter(db.comments, (c: BookComment) => c.id != id))
  }

  lemma DeleteCommentKeepsValid(db: Db, id: Id)
    requires ValidDb(db)
    ensures ValidDb(DeleteComment(db, id))
  {
    FilterKeepsDistinct(db.comments, (c: BookComment) => c.id != id);
  }

  /** The books written by an author. */
  function BooksBy(books: seq<Book>, author: Id): set<Id> {
    set b | b in books && b.author == author :: b.id
  }

  /** Deleting an author deletes the author's books (on_delete=CASCADE), and with them their
      comments and ratings. */
  function DeleteAuthor(db: Db, id: Id): (r: Db)
    ensures r.users == db.users
    ensures forall a :: a in r.authors <==> a in db.authors && a.id != id
    ensures forall b :: b in r.books <==> b in db.books && b.author != id
    ensures forall c :: c in r.comments <==> c in db.comments && c.book !in BooksBy(db.books, id)
    ensures forall x :: x in r.ratings <==> x in db.ratings && x.book !in BooksBy(db.books, id)
  {
    var gone := BooksBy(db.books, id);
    db.(authors := Filter(db.authors, (a: Author) => a.id != id),
        books := Filter(db.books, (b: Book) => b.author != id),
        comments := Filter(db.comments, (c: BookComment) => c.book !in gone),
        ratings := Filter(db.ratings, (x: BookRating) => x.book !in gone))
  }

  lemma DeleteAuthorKeepsValid(db: Db, id: Id)
    requires ValidDb(db)
    ensures ValidDb(DeleteAuthor(db, id))
  {
    var r := DeleteAuthor(db, id);
    var gone := BooksBy(db.books, id);
    FilterKeepsDistinct(db.authors, (a: Author) => a.id != id);
    FilterKeepsDistinct(db.books, (b: Book) => b.author != id);
    FilterKeepsDistinct(db.comments, (c: BookComment) => c.book !in gone);
    FilterKeepsDistinct(db.ratings, (x: BookRating) => x.book !in gone);
    forall b | b in r.books ensures b.author in AuthorIds(r.authors) {
      var a :| a in db.authors && a.id == b.author;
      assert a in r.authors;
    }
    forall c | c in r.comments ensures c.book in BookIds(r.books) {
      var b :| b in db.books && b.id == c.book;
      assert b.author != id;
      assert b in r.books;
    }
    forall x | x in r.ratings ensures x.book in BookIds(r.books) {
      var b :| b in db.books && b.id == x.book;
      assert b.author != id;
      assert b in r.books;
    }
  }

  function ClearAddedBy(b: Book, user: Id): Book {
    if b.addedBy == Some(user) then b.(addedBy := None) else b
  }

  /** UPDATE book SET added_by = NULL WHERE added_by = user. */
  function NullAddedBy(books: seq<Book>, user: Id): (r: seq<Book>)
    ensures |r| == |books|
    ensures forall x :: x in r ==> x.addedBy != Some(user)
    ensures forall x :: x in books && x.addedBy != Some(user) ==> x in r
    ensures forall x :: x in books && x.addedBy == Some(user) ==> x.(addedBy := None) in r
    ensures forall x :: x in r ==> x in books || x.(addedBy := Some(user)) in books
  {
    var r := seq(|books|, i requires 0 <= i < |books| => ClearAddedBy(books[i], user));
    assert forall x :: x in r ==> x.addedBy != Some(user) && (x in books || x.(addedBy := Some(user)) in books) by {
      forall x | x in r ensures x.addedBy != Some(user) && (x in books || x.(addedBy := Some(user)) in books) {
        var i :| 0 <= i < |r| && r[i] == x;
        assert books[i] in books;
        if books[i].addedBy == Some(user) {
          assert x.(addedBy := Some(user)) == books[i];
        }
      }
    }
    assert forall x :: x in books ==> ClearAddedBy(x, user) in r by {
      forall x | x in books ensures ClearAddedBy(x, user) in r {
        var i :| 0 <= i < |books| && books[i] == x;
        assert r[i] == ClearAddedBy(x, user);
      }
    }
    r
  }

  /** Clearing `added_by` keeps every key. */
  lemma NullAddedByKeepsIds(books: seq<Book>, user: Id)
    ensures BookIds(NullAddedBy(books, user)) == BookIds(books)
  {
    var r := NullAddedBy(books, user);
    forall k | k in BookIds(books) ensures k in BookIds(r) {
      var i :| 0 <= i < |books| && books[i].id == k;
      assert r[i] in r;
    }
    forall k | k in BookIds(r) ensures k in BookIds(books) {
      var i :| 0 <= i < |r| && r[i].id == k;
      assert books[i] in books;
    }
  }

  /** Clearing `added_by` keeps every key, so keys stay unique and rows stay distinct. */
  lemma NullAddedByKeepsKeys(books: seq<Book>, user: Id)
    requires Distinct(books)
    requires forall b, b' :: b in books && b' in books && b.id == b'.id ==> b == b'
    ensures Distinct(NullAddedBy(books, user))
    ensures forall b, b' :: b in NullAddedBy(books, user) && b' in NullAddedBy(books, user) && b.id == b'.id ==> b == b'
  {
    var r := NullAddedBy(books, user);
    forall i, j | 0 <= i < j < |r| ensures r[i] != r[j] {
      assert books[i] in books && books[j] in books;
      assert books[i] != books[j];
    }
    forall b, b' | b in r && b' in r && b.id == b'.id ensures b == b' {
      var i :| 0 <= i < |r| && r[i] == b;
      var j :| 0 <= j < |r| && r[j] == b';
      assert books[i] in books && books[j] in books;
    }
  }

  /** Deleting a user keeps the books the user added, with `added_by` set to null
      (on_delete=SET_NULL), and deletes the user's comments and ratings. */
  function DeleteUser(db: Db, id: Id): (r: Db)
    ensures r.authors == db.authors
    ensures forall u :: u in r.users <==> u in db.users && u.id != id
    ensures r.books == NullAddedBy(db.books, id)
    ensures forall c :: c in r.comments <==> c in db.comments && c.user != id
    ensures forall x :: x in r.ratings <==> x in db.ratings && x.user != id
  {
    db.(users := Filter(db.users, (u: User) => u.id != id),
        books := NullAddedBy(db.books, id),
        comments := Filter(db.comments, (c: BookComment) => c.user != id),
        ratings := Filter(db.ratings, (x: BookRating) => x.user != id))
  }

  /** SET_NULL keeps every book, with its key, and every foreign key of the books still
      points at an existing row. */
  lemma DeleteUserKeepsBooksValid(db: Db, id: Id)
    requires ValidDb(db)
    ensures BooksValid(DeleteUser(db, id))
    ensures BookIds(DeleteUser(db, id).books) == BookIds(db.books)
  {
    var r := DeleteUser(db, id);
    NullAddedByKeepsIds(db.books, id);
    NullAddedByKeepsKeys(db.books, id);
    forall b | b in r.books
      ensures ValidBook(b) && b.author in AuthorIds(r.authors)
      ensures b.addedBy.Some? ==> b.addedBy.value in UserIds(r.users)
    {
      var i :| 0 <= i < |r.books| && r.books[i] == b;
      assert db.books[i] in db.books;
      if b.addedBy.Some? {
        var u :| u in db.users && u.id == b.addedBy.value;
        assert u in r.users;
      }
    }
  }

  lemma DeleteUserKeepsValid(db: Db, id: Id)
    requires ValidDb(db)
    ensures ValidDb(DeleteUser(db, id))
    ensures BookIds(DeleteUser(db, id).books) == BookIds(db.books)
  {
    var r := DeleteUser(db, id);
    DeleteUserKeepsBooksValid(db, id);
    FilterKeepsDistinct(db.users, (u: User) => u.id != id);
    FilterKeepsDistinct(db.comments, (c: BookComment) => c.user != id);
    FilterKeepsDistinct(db.ratings, (x: BookRating) => x.user != id);
    forall c | c in r.comments ensures c.user in UserIds(r.users) {
      var u :| u in db.users && u.id == c.user;
      assert u in r.users;
    }
    forall x | x in r.ratings ensures x.user in UserIds(r.users) {
      var u :| u in db.users && u.id == x.user;
      assert u in r.users;
    }
  }
}
