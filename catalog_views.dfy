/** The catalog's pages: the queries behind the list pages (index ranking, search, an author's
    books, the plain listings) and the request handlers that change the catalog (comment and
    rate a book, create, update and delete a book, delete a comment). */
module CatalogViews {
  import opened Wrappers
  import opened Http
  import opened Text
  import opened Sorting
  import opened Pagination
  import opened Users
  import opened CatalogModels
  import opened Store

  /** `paginate_by` of every list page. */
  const PageSize := 6

  // ---------------------------------------------------------------------------------------
  // Queries

  /** The book has at least one rating (`exclude(rating__isnull=True)`). */
  predicate Rated(ratings: seq<BookRating>, book: Id) {
    exists x :: x in ratings && x.book == book
  }

  /** The key the index sorts by: the book's average rating. */
  function Score(ratings: seq<BookRating>, b: Book): real {
    AverageRating(ratings, b.id).GetOr(0.0)
  }

  /** Higher average first: `sorted(..., key=average_rating, reverse=True)`. */
  function ByAverageDesc(ratings: seq<BookRating>): (Book, Book) -> bool {
    (x: Book, y: Book) => Score(ratings, x) >= Score(ratings, y)
  }

  lemma ByAverageDescIsTotalPreorder(ratings: seq<BookRating>)
    ensures Total(ByAverageDesc(ratings)) && Transitive(ByAverageDesc(ratings))
  {
    var le := ByAverageDesc(ratings);
    assert forall x, y :: le(x, y) == (Score(ratings, x) >= Score(ratings, y));
  }

  /** `Book.objects.exclude(rating__isnull=True)`, in the default order. */
  function RatedBooks(db: Db): (r: seq<Book>)
    ensures forall b :: multiset(r)[b] == if Rated(db.ratings, b.id) then multiset(db.books)[b] else 0
  {
    BookOrderIsTotalPreorder(db.authors);
    var ordered := SortBy(db.books, BookOrder(db.authors));
    Filter(ordered, (b: Book) => Rated(db.ratings, b.id))
  }

  /** IndexView.get_queryset: the rated books, each as often as stored, re-sorted by average
      rating, highest first. */
  function Index(db: Db): (r: seq<Book>)
    ensures forall b :: multiset(r)[b] == if Rated(db.ratings, b.id) then multiset(db.books)[b] else 0
    ensures forall b :: b in r <==> b in db.books && Rated(db.ratings, b.id)
    ensures forall i, j :: 0 <= i < j < |r| ==> Score(db.ratings, r[i]) >= Score(db.ratings, r[j])
  {
    ByAverageDescIsTotalPreorder(db.ratings);
    var r := SortBy(RatedBooks(db), ByAverageDesc(db.ratings));
    assert Sorted(r, ByAverageDesc(db.ratings));
    forall b ensures b in r <==> b in db.books && Rated(db.ratings, b.id) {
      assert b in r <==> b in multiset(r);
      assert b in db.books <==> b in multiset(db.books);
    }
    r
  }

  /** A stored book appears on the index at most once (`distinct()`), and every rated book
      has an average. */
  lemma IndexListsEachRatedBookOnce(db: Db)
    requires ValidDb(db)
    ensures Distinct(Index(db))
    ensures forall b :: b in Index(db) ==> AverageRating(db.ratings, b.id).Some?
  {
    DistinctIffCountsAtMostOne(db.books);
    DistinctIffCountsAtMostOne(Index(db));
  }

  /** The text search matches the query against the title or the author's name. */
  predicate Matches(db: Db, b: Book, query: string) {
    IContains(b.title, query) || IContains(AuthorName(db.authors, b.author), query)
  }

  /** SearchView.get_queryset: nothing for a missing or empty `q`; otherwise the books whose
      title or author name contains `q`, ignoring case, in the default order. */
  function Search(db: Db, q: Option<string>): (r: seq<Book>)
    ensures q.None? || q.value == [] ==> r == []
    ensures q.Some? && q.value != [] ==> forall b :: b in r <==> b in db.books && Matches(db, b, q.value)
    ensures forall b :: multiset(r)[b] <= multiset(db.books)[b]
    ensures Sorted(r, BookOrder(db.authors))
  {
    if q.None? || q.value == [] then []
    else
      BookOrderIsTotalPreorder(db.authors);
      var found := Filter(db.books, (b: Book) => Matches(db, b, q.value));
      var r := SortBy(found, BookOrder(db.authors));
      assert forall b :: b in r <==> b in found by {
        forall b ensures b in r <==> b in found {
          assert b in r <==> b in multiset(r);
        }
      }
      r
  }

  /** A book is found exactly when the query, upper-cased, is a slice of its upper-cased title
      or author name. */
  lemma {:induction false} SearchFindsSubstrings(db: Db, q: string, b: Book)
    requires q != []
    ensures b in Search(db, Some(q)) <==>
      b in db.books && ((exists i: nat :: OccursAt(Upper(b.title), Upper(q), i))
                     || (exists i: nat :: OccursAt(Upper(AuthorName(db.authors, b.author)), Upper(q), i)))
  {
    ContainsIffOccurs(Upper(b.title), Upper(q));
    ContainsIffOccurs(Upper(AuthorName(db.authors, b.author)), Upper(q));
  }

  /** Upper-casing the query does not change what the search finds. */
  lemma SearchIgnoresQueryCase(db: Db, q: string, b: Book)
    ensures b in Search(db, Some(q)) <==> b in Search(db, Some(Upper(q)))
  {
    IContainsUpperQuery(b.title, q);
    IContainsUpperQuery(AuthorName(db.authors, b.author), q);
    assert Matches(db, b, Upper(q)) == Matches(db, b, q);
    assert |Upper(q)| == |q|;
  }

  /** BookListView: every book, in the default order. */
  function AllBooks(db: Db): (r: seq<Book>)
    ensures multiset(r) == multiset(db.books)
    ensures Sorted(r, BookOrder(db.authors))
  {
    BookOrderIsTotalPreorder(db.authors);
    SortBy(db.books, BookOrder(db.authors))
  }

  /** BookListView's pages: the paginator counts every stored book; a request without `page`
      shows the first six; the list is paginated exactly when there are more than six books; and
      the page count is the one the tests compute by hand. */
  lemma BookListPages(db: Db)
    ensures |AllBooks(db)| == |db.books|
    ensures PageFor(AllBooks(db), Missing, PageSize) == Some(AllBooks(db)[..Min(|db.books|, PageSize)])
    ensures IsPaginated(|AllBooks(db)|, PageSize) <==> |db.books| > PageSize
    ensures |db.books| > 0 ==>
      NumPages(|AllBooks(db)|, PageSize) == |db.books| / PageSize + (if |db.books| % PageSize == 0 then 0 else 1)
  {
    assert |AllBooks(db)| == |multiset(AllBooks(db))| == |multiset(db.books)| == |db.books|;
    if |db.books| > 0 {
      NumPagesFormula(|db.books|, PageSize);
    }
  }

  /** AuthorListView: every author, by name. */
  function AllAuthors(db: Db): (r: seq<Author>)
    ensures multiset(r) == multiset(db.authors)
    ensures Sorted(r, AuthorOrder())
  {
    AuthorOrderIsTotalPreorder();
    SortBy(db.authors, AuthorOrder())
  }

  /** AuthorDetailView: HTTP 404 (None) for an unknown author, otherwise that author's books
      in the default order. */
  function AuthorBooks(db: Db, author: Id): (r: Option<seq<Book>>)
    ensures r.None? <==> author !in AuthorIds(db.authors)
    ensures r.Some? ==> forall b :: b in r.value <==> b in db.books && b.author == author
    ensures r.Some? ==> Sorted(r.value, BookOrder(db.authors))
  {
    match AuthorById(db.authors, author)
    case None => None
    case Some(_) =>
      BookOrderIsTotalPreorder(db.authors);
      var mine := Filter(db.books, (b: Book) => b.author == author);
      var r := SortBy(mine, BookOrder(db.authors));
      assert forall b :: b in r <==> b in mine by {
        forall b ensures b in r <==> b in mine {
          assert b in r <==> b in multiset(r);
        }
      }
      Some(r)
  }

  // ---------------------------------------------------------------------------------------
  // Book detail: comment or rate

  /** What a POST to the book page carries: the comment form's content and the rating
      form's rate, each possibly missing. */
  datatype DetailPost = DetailPost(content: Option<string>, rate: Option<int>)

  predicate CommentFormValid(p: DetailPost) {
    p.content.Some? && TextOk(p.content.value, ContentMaxLength)
  }

  predicate RatingFormValid(p: DetailPost) {
    p.rate.Some? && ValidRate(p.rate.value)
  }

  /** BookDetailView.post: HTTP 403 for an anonymous request, 404 for an unknown book; then a
      valid comment is saved, else a valid rate is saved, else both forms are shown again with
      their errors. */
  method BookDetailPost(lib: Library, pk: Id, post: DetailPost) returns (r: Response)
    requires lib.Valid()
    modifies lib
    ensures lib.Valid() && lib.session == old(lib.session)
    ensures old(lib.session).None? ==> r == Forbidden && unchanged(lib)
    ensures old(lib.session).Some? && pk !in BookIds(old(lib.db.books)) ==> r == NotFound && unchanged(lib)
    ensures old(lib.session).Some? && pk in BookIds(old(lib.db.books)) && CommentFormValid(post) ==>
      var c := BookComment(old(lib.nextId), old(lib.session).value, pk, post.content.value, old(lib.clock));
      && r == Ok({})
      && lib.db == old(lib.db).(comments := old(lib.db.comments) + [c])
      && lib.nextId == old(lib.nextId) + 1 && lib.clock == old(lib.clock) + 1
      && CommentsOf(lib.db, pk) != [] && CommentsOf(lib.db, pk)[0] == c
    ensures old(lib.session).Some? && pk in BookIds(old(lib.db.books)) && !CommentFormValid(post) && RatingFormValid(post) ==>
      && r == Ok({})
      && lib.db == old(lib.db).(ratings := Upsert(old(lib.db.ratings), old(lib.session).value, pk, post.rate.value))
      && lib.nextId == old(lib.nextId) && lib.clock == old(lib.clock)
    ensures old(lib.session).Some? && pk in BookIds(old(lib.db.books)) && !CommentFormValid(post) && !RatingFormValid(post) ==>
      r == Ok({Content, Rate}) && unchanged(lib)
  {
    if lib.session.None? {
      return Forbidden;
    }
    var user := lib.session.value;
    var book := BookById(lib.db.books, pk);
    if book.None? {
      return NotFound;
    }
    if CommentFormValid(post) {
      var c := lib.SaveComment(user, pk, post.content.value);
      r := Ok({});
    } else if RatingFormValid(post) {
      lib.SaveRating(user, pk, post.rate.value);
      r := Ok({});
    } else {
      r := Ok({Content, Rate});
    }
  }

  // ---------------------------------------------------------------------------------------
  // Book create, update and delete

  /** BookCreateView: anonymous requests go to the login page; a form with errors is shown
      again; otherwise the book is saved with `added_by` set to the requester and the browser
      is sent to the new book's page. */
  method BookCreatePost(lib: Library, f: BookInput) returns (r: Response)
    requires lib.Valid()
    modifies lib
    ensures lib.Valid() && lib.session == old(lib.session) && lib.clock == old(lib.clock)
    ensures old(lib.session).None? ==> r == LoginRedirect(BookCreate) && unchanged(lib)
    ensures old(lib.session).Some? && BookErrors(old(lib.db.authors), f) != {} ==>
      r == Ok(BookErrors(old(lib.db.authors), f)) && unchanged(lib)
    ensures old(lib.session).Some? && BookErrors(old(lib.db.authors), f) == {} ==>
      && f.title.Some? && f.author.Some? && f.summary.Some? && f.publicationYear.Some?
      && lib.db == old(lib.db).(books := old(lib.db.books) + [BookFromForm(old(lib.nextId), f, NewPoster(f.poster), old(lib.session))])
      && lib.nextId == old(lib.nextId) + 1
      && r == Redirect(BookDetail(old(lib.nextId)))
  {
    if lib.session.None? {
      return LoginRedirect(BookCreate);
    }
    var errors := BookErrors(lib.db.authors, f);
    if errors != {} {
      return Ok(errors);
    }
    AcceptedFormIsValidBook(lib.db.authors, f, lib.nextId, NewPoster(f.poster), lib.session);
    var b := BookFromForm(lib.nextId, f, NewPoster(f.poster), lib.session);
    lib.InsertBook(b);
    r := Redirect(BookDetail(b.id));
  }

  /** The book the update form saves: the posted fields, a new poster only if one was uploaded,
      and the same key and `added_by`. */
  function UpdatedBook(current: Book, f: BookInput): Book
    requires f.title.Some? && f.author.Some? && f.summary.Some? && f.publicationYear.Some?
  {
    BookFromForm(current.id, f, UpdatedPoster(current.poster, f.poster), current.addedBy)
  }

  /** BookUpdateView.post: anonymous requests go to the login page, an unknown book is HTTP
      404, and anyone but the user who added the book gets HTTP 403 with nothing changed; the
      owner's valid form updates the book in place. */
  method BookUpdatePost(lib: Library, pk: Id, f: BookInput) returns (r: Response)
    requires lib.Valid()
    modifies lib
    ensures lib.Valid() && lib.session == old(lib.session) && lib.nextId == old(lib.nextId) && lib.clock == old(lib.clock)
    ensures old(lib.session).None? ==> r == LoginRedirect(BookUpdate(pk)) && unchanged(lib)
    ensures old(lib.session).Some? && pk !in BookIds(old(lib.db.books)) ==> r == NotFound && unchanged(lib)
    ensures old(lib.session).Some? && pk in BookIds(old(lib.db.books)) ==>
      var current := BookById(old(lib.db.books), pk).value;
      && (current.addedBy != old(lib.session) ==> r == Forbidden && unchanged(lib))
      && (current.addedBy == old(lib.session) && BookErrors(old(lib.db.authors), f) != {} ==>
            r == Ok(BookErrors(old(lib.db.authors), f)) && unchanged(lib))
      && (current.addedBy == old(lib.session) && BookErrors(old(lib.db.authors), f) == {} ==>
            && f.title.Some? && f.author.Some? && f.summary.Some? && f.publicationYear.Some?
            && lib.db == old(lib.db).(books := ReplaceBook(old(lib.db.books), UpdatedBook(current, f)))
            && r == Redirect(BookDetail(pk)))
  {
    if lib.session.None? {
      return LoginRedirect(BookUpdate(pk));
    }
    var found := BookById(lib.db.books, pk);
    if found.None? {
      return NotFound;
    }
    var current := found.value;
    if current.addedBy != lib.session {
      return Forbidden;
    }
    var errors := BookErrors(lib.db.authors, f);
    if errors != {} {
      return Ok(errors);
    }
    AcceptedFormIsValidBook(lib.db.authors, f, pk, UpdatedPoster(current.poster, f.poster), current.addedBy);
    var b := UpdatedBook(current, f);
    lib.UpdateBook(b);
    r := Redirect(BookDetail(pk));
  }

  /** BookDeleteView.get: deleting needs a POST, so a GET is HTTP 405 (after the login
      check); it changes nothing. */
  method BookDeleteGet(lib: Library, pk: Id) returns (r: Response)
    ensures lib.session.None? ==> r == LoginRedirect(BookDelete(pk))
    ensures lib.session.Some? ==> r == NotAllowed
  {
    if lib.session.None? {
      r := LoginRedirect(BookDelete(pk));
    } else {
      r := NotAllowed;
    }
  }

  /** BookDeleteView.post: only the user who added the book may delete it; the book goes with
      its comments and ratings, and the browser is sent to the profile page. */
  method BookDeletePost(lib: Library, pk: Id) returns (r: Response)
    requires lib.Valid()
    modifies lib
    ensures lib.Valid() && lib.session == old(lib.session) && lib.nextId == old(lib.nextId) && lib.clock == old(lib.clock)
    ensures old(lib.session).None? ==> r == LoginRedirect(BookDelete(pk)) && unchanged(lib)
    ensures old(lib.session).Some? && pk !in BookIds(old(lib.db.books)) ==> r == NotFound && unchanged(lib)
    ensures old(lib.session).Some? && pk in BookIds(old(lib.db.books)) ==>
      var current := BookById(old(lib.db.books), pk).value;
      && (current.addedBy != old(lib.session) ==> r == Forbidden && unchanged(lib))
      && (current.addedBy == old(lib.session) ==>
            lib.db == DeleteBook(old(lib.db), pk) && pk !in BookIds(lib.db.books) && r == Redirect(Profile))
  {
    if lib.session.None? {
      return LoginRedirect(BookDelete(pk));
    }
    var found := BookById(lib.db.books, pk);
    if found.None? {
      return NotFound;
    }
    if found.value.addedBy != lib.session {
      return Forbidden;
    }
    lib.RemoveBook(pk);
    r := Redirect(Profile);
  }

  // ---------------------------------------------------------------------------------------
  // Comment delete

  /** BookCommentDeleteView.get: HTTP 405 after the login check; nothing changes. */
  method CommentDeleteGet(lib: Library, bookId: Id, pk: Id) returns (r: Response)
    ensures lib.session.None? ==> r == LoginRedirect(CommentDelete(bookId, pk))
    ensures lib.session.Some? ==> r == NotAllowed
  {
    if lib.session.None? {
      r := LoginRedirect(CommentDelete(bookId, pk));
    } else {
      r := NotAllowed;
    }
  }

  /** BookCommentDeleteView.post: the comment is looked up by its own key only; anyone but
      its author gets HTTP 403; on success only that comment goes, and the browser is sent to
      the page of the book named in the URL. */
  method CommentDeletePost(lib: Library, bookId: Id, pk: Id) returns (r: Response)
    requires lib.Valid()
    modifies lib
    ensures lib.Valid() && lib.session == old(lib.session) && lib.nextId == old(lib.nextId) && lib.clock == old(lib.clock)
    ensures old(lib.session).None? ==> r == LoginRedirect(CommentDelete(bookId, pk)) && unchanged(lib)
    ensures old(lib.session).Some? && pk !in CommentIds(old(lib.db.comments)) ==> r == NotFound && unchanged(lib)
    ensures old(lib.session).Some? && pk in CommentIds(old(lib.db.comments)) ==>
      var c := CommentById(old(lib.db.comments), pk).value;
      && (c.user != old(lib.session).value ==> r == Forbidden && unchanged(lib))
      && (c.user == old(lib.session).value ==>
            lib.db == DeleteComment(old(lib.db), pk) && r == Redirect(BookDetail(bookId)))
  {
    if lib.session.None? {
      return LoginRedirect(CommentDelete(bookId, pk));
    }
    var found := CommentById(lib.db.comments, pk);
    if found.None? {
      return NotFound;
    }
    if found.value.user != lib.session.value {
      return Forbidden;
    }
    lib.RemoveComment(pk);
    r := Redirect(BookDetail(bookId));
  }
}
