# Library catalog: a verified model

This project models the core of a Django library-catalog site in Dafny. The site has users,
authors, books, comments on books, and ratings of books.

The model covers four parts:

- **The model layer** (`library/catalog/models.py`). This is the records and the bounds their fields
  declare. It includes the `publication_year` check constraint, the upload defaults, the
  default orderings, the cascade and SET_NULL rules of the foreign keys, `bio_short` /
  `summary_short`, and a book's average rating.
- **The catalog views** (`library/catalog/views.py`). The queries behind the list pages are pure
  functions: the index ranking, search, an author's books and the plain listings. Django's
  paginator arithmetic is modelled for these pages. The request handlers that change the
  catalog are methods over one `Library` object. That object holds the database, the
  session's logged-in user, the clock that stamps comments, and the source of fresh keys.
- **The account views** (`library/accounts/views.py`): the profile listing, registration (which
  logs the new user in) and the login page.
- **The `param_replace` template tag** (`library/catalog/templatetags/catalog_extras.py`). It is
  an imperative two-loop method over a query map, proved equal to a specification function.

Each handler method keeps `Library.Valid()`, which is `Store.StateValid` of the object's fields.
That predicate requires:

- every stored row satisfies its field bounds and the check constraint;
- every foreign key points at an existing row;
- keys are unique;
- there is at most one rating per (user, book);
- every key is below the next fresh key, and every comment is older than the clock;
- the session's user exists.

Each write the views make through the ORM (`save()`, `delete()`, `create_user()`, `login()`)
is a `Library` method, proved against a lemma over plain values that the write keeps
`StateValid`.

Each method's postcondition states the response and the exact new state for every branch of
the view. The lemmas beside the methods prove what those states mean. For example:

- a new comment heads the newest-first listing;
- an upsert leaves one rating per rater;
- a registered user can then authenticate;
- the cascades keep the database valid.

Modules, one file each:

- `wrappers.dfy`: Option, Min and Max.
- `http.dfy`: routes, form fields and response kinds.
- `text.dfy`: case mapping, substring search and lexicographic order.
- `sorting.dfy`: insertion sort by a comparison, filter and find.
- `pagination.dfy`
- `users.dfy`
- `catalog_models.dfy`
- `store.dfy`
- `catalog_views.dfy`
- `account_views.dfy`
- `catalog_extras.dfy`

## Model

| member | source | states |
|---|---|---|
| Text.ContainsIffOccurs | library/catalog/views.py:46 | the substring test agrees with "some slice of the text equals the query" |
| Text.IContainsUpperQuery | library/catalog/views.py:46 | upper-casing the query before the case-insensitive test does not change its answer |
| Text.LowerIdempotent | library/accounts/views.py:45 | a username lowered once is already lower case |
| Text.UpperIdempotent | library/catalog/views.py:46 | upper-casing twice is upper-casing once |
| Text.EmptyOccursEverywhere | library/catalog/views.py:44-48 | the empty query would match every text, which is why the view must treat it apart |
| Text.StrLeTotal | library/catalog/models.py:54 | any two names are ordered one way or the other |
| Text.StrLeTransitive | library/catalog/models.py:54 | the text order is transitive |
| Text.StrLeAntisymmetric | library/catalog/models.py:54 | two texts ordered both ways are equal |
| Text.StrLtLeTransitive | library/catalog/models.py:127 | a strictly smaller title stays strictly smaller after a non-strict step, so the title-then-author order is transitive |
| Sorting.Insert | library/catalog/views.py:30-34 | insertion adds exactly the one element and puts it or the old head first |
| Sorting.SortedTail | library/catalog/views.py:30-34 | the tail of a sorted sequence is sorted |
| Sorting.ConsSorted | library/catalog/views.py:30-34 | an element no later than every element of a sorted sequence can be put in front of it, and the result is sorted |
| Sorting.InsertSorted | library/catalog/views.py:30-34 | inserting into a sorted sequence keeps it sorted under a total preorder |
| Sorting.SortBy | library/catalog/views.py:30-34 | the result is a permutation of the input and is sorted by the comparison |
| Sorting.Filter | library/catalog/views.py:45-47 | each element keeps its count if it passes the test and is dropped otherwise |
| Sorting.Find | library/catalog/models.py:27-29 | a lookup by key returns a stored row satisfying the test, and returns nothing exactly when no row does |
| Sorting.FirstComesFirst | library/catalog/models.py:194 | the head of a sorted sequence comes no later than any element |
| Sorting.StrictFirstHeads | library/catalog/models.py:194 | an element strictly before all others heads every sorted arrangement |
| Sorting.DistinctIffCountsAtMostOne | library/catalog/views.py:31 | "no repeats" is the same as "every count at most one" |
| Sorting.DistinctAppend | library/catalog/models.py:85-87 | appending a new row keeps a table free of repeats |
| Sorting.PermutationKeepsDistinct | library/catalog/views.py:30-31 | sorting a repeat-free sequence gives a repeat-free sequence |
| Sorting.FilterKeepsDistinct | library/catalog/views.py:31 | filtering a repeat-free sequence gives a repeat-free sequence |
| Pagination.NumPages | library/catalog/views.py:26 | the page count is the least n >= 1 with n pages of size 6 covering max(count, 1) items |
| Pagination.Page | library/catalog/views.py:54 | a page exists exactly for numbers 1..NumPages; page n holds min(page size, count - (n-1) * page size) items, so at most 6, and at least one when the list is non-empty |
| Pagination.PageFor | library/catalog/views.py:54 | a request without `page` shows the first page; "last" shows page NumPages, which ends with the listing's last item; a number n shows page n, which exists exactly when n is in 1..NumPages; anything else is HTTP 404 |
| Pagination.LastPageEndsList | library/catalog/views.py:54 | the last page always exists, and for a non-empty listing its final entry is the listing's final item |
| Pagination.IsPaginated | library/catalog/views.py:54 | `is_paginated` holds exactly when the listing is longer than one page |
| Pagination.NumPagesFormula | library/catalog/tests/test_views_books.py:54-62 | for a non-empty listing the page count is count // 6 plus one for a partial last page |
| Pagination.FirstPage | library/catalog/views.py:59 | the first page holds the first min(n, 6) items |
| Pagination.ItemOnItsPage | library/catalog/views.py:178 | item i is on page i / 6 + 1, at position i % 6 |
| Pagination.PageCountExamples | library/catalog/tests/test_views_books.py:47-62 | 15 items give 3 pages and 30 give 5; 10 and 12 give 2; an empty list has 1 page |
| Users.Authenticate | library/accounts/views.py:53 | returns a user with that username and password if one exists, and nothing exactly when none does |
| Users.RegisterErrors | library/accounts/views.py:44 | for the checks it models, a field is in error exactly when it is blank, the username is too long or taken ignoring case, the e-mail is taken, or the passwords differ; the character-set, e-mail-format and password validators are not modelled |
| Users.LastAt | library/accounts/views.py:48-52 | the position of the last "@" of an e-mail, where the domain begins, or nothing exactly when there is no "@" |
| Users.NormalizeEmail | library/accounts/views.py:48-52 | create_user's normalize_email: same length and same letters up to case; everything up to the last "@" is kept, the domain after it is lower-cased; without "@" the e-mail is unchanged |
| Users.NormalizeEmailIdempotent | library/accounts/views.py:48-52 | normalising an e-mail twice gives the same as once |
| Users.AddUserKeepsValidUsers | library/accounts/tests/test_models.py:24-31 | a row that clashes with no stored user on key, username or e-mail keeps every key, username and e-mail unique |
| Users.AcceptedFormClashesOnlyByEmail | library/accounts/views.py:44-52 | once the form accepts, the new row can clash with a stored user only through its normalised e-mail, and does exactly when that e-mail is stored |
| Users.DomainCaseSlipsPastForm | library/accounts/tests/test_models.py:24-31 | with "a@example.com" stored, a form with "a@EXAMPLE.com" has no errors, yet its normalised e-mail is already stored |
| Users.RegisteredUserAuthenticates | library/accounts/views.py:45-54 | an accepted form whose normalised e-mail is not stored yields a new user with unique username and e-mail, and authenticate then returns that user |
| CatalogModels.BookById | library/catalog/views.py:82 | get_object: the stored book with that key, or nothing exactly when no book has it |
| CatalogModels.CommentById | library/catalog/views.py:169 | the stored comment with that key, or nothing exactly when there is none |
| CatalogModels.AuthorById | library/catalog/views.py:186-187 | the stored author with that key, or nothing exactly when there is none |
| CatalogModels.BioShort | library/catalog/models.py:71-72 | at most 103 characters, a prefix of the bio followed by "...": the whole bio when it has at most 100 characters, otherwise exactly 100 of them |
| CatalogModels.SummaryShort | library/catalog/models.py:153-154 | the same truncation for the summary |
| CatalogModels.AuthorErrors | library/catalog/models.py:30-31 | no error exactly when the name has 1..200 characters and the bio 1..1000 (the bio bound is at lines 39-44) |
| CatalogModels.NewAuthor | library/catalog/models.py:45-51 | an accepted author is valid, and its photo is "authors/no-photo.webp" when none was uploaded or lies under "authors/" otherwise |
| CatalogModels.YearErrorPlacement | library/catalog/models.py:130-138 | a negative year is a field error; 3000..32767 breaks only the check constraint and is a form-wide error; no year outside 0..2999 is accepted |
| CatalogModels.AcceptedFormIsValidBook | library/catalog/models.py:88-110 | a book form without errors gives a book with a 1..200 character title, a 1..1000 character summary, a year in 0..2999 and an existing author |
| CatalogModels.BookErrors | library/catalog/models.py:88-138 | each field is in error exactly when it is missing or out of bounds (title 1..200, summary 1..1000, author an existing author, year 0..32767); a year in the column but outside 0..2999 is a form-wide error; no error exactly when every bound and the check constraint hold |
| CatalogModels.NewPoster | library/catalog/models.py:111-117 | the poster is "posters/no-poster.jpg" without an upload and lies under "posters/" otherwise, followed by the name the storage gave the upload |
| CatalogModels.RateCountZeroIffUnrated | library/catalog/tests/test_models.py:105-119 | a book has no rates exactly when no rating names it |
| CatalogModels.AverageRating | library/catalog/tests/test_models.py:105-119 | there is no average exactly when the book is unrated |
| CatalogModels.RateSumBounds | library/catalog/tests/test_models.py:105-119 | the sum of n rates of 1..5 lies between n and 5n |
| CatalogModels.AverageWithinRateBounds | library/catalog/tests/test_models.py:105-119 | an average lies between 1 and 5 |
| CatalogModels.MeanBounds | library/catalog/tests/test_models.py:105-119 | a sum of n values in [lo, hi] has its mean in [lo, hi] |
| CatalogModels.RateOfOthersIgnored | library/catalog/tests/test_models.py:105-119 | a rating of another book changes neither the sum nor the count |
| CatalogModels.RateAppended | library/catalog/tests/test_models.py:105-119 | a rating of the book adds its rate to the sum and one to the count |
| CatalogModels.RateSumZero | library/catalog/tests/test_models.py:105-119 | an unrated book's rates sum to 0 |
| CatalogModels.AverageExample | library/catalog/tests/test_models.py:105-119 | rates 4 and 5 average 4.5 |
| CatalogModels.Upsert | library/catalog/tests/test_models.py:226-231 | the new rating is stored; every other rater's or other book's rating is kept; the rater's earlier rating of the book is gone |
| CatalogModels.UpsertLeavesOneRating | library/catalog/tests/test_models.py:226-231 | after saving, the rater has exactly one rating of the book, holding the new rate |
| CatalogModels.RerateExample | library/catalog/tests/test_models.py:226-231 | rating 4 and then 5 leaves only the 5 |
| CatalogModels.FirstRatingIsAverage | library/catalog/tests/test_views_rating.py:53-61 | the first rating of a book is its average, so one rating of 5 gives 5 |
| CatalogModels.SoleRatingIsAverage | library/catalog/tests/test_views_rating.py:53-61 | a book whose only rating has rate r averages r |
| CatalogModels.BookOrderIsTotalPreorder | library/catalog/models.py:127 | ordering by title, then author name, is total and transitive |
| CatalogModels.AuthorOrderIsTotalPreorder | library/catalog/models.py:54 | ordering by name is total and transitive |
| CatalogModels.NewestFirstIsTotalPreorder | library/catalog/models.py:194 | ordering by -created_at is total and transitive |
| CatalogModels.CommentsOf | library/catalog/views.py:71 | exactly the book's comments, ordered by created_at descending |
| CatalogModels.NewestCommentFirst | library/catalog/models.py:188-194 | a comment newer than the book's other comments heads the listing |
| CatalogModels.AddCommentKeepsValid | library/catalog/views.py:85-88 | saving a valid comment with a fresh key keeps the database valid |
| CatalogModels.UpsertKeepsValid | library/catalog/views.py:92-95 | saving a rate of 1..5 keeps the database valid, with one rating per (user, book) |
| CatalogModels.AddBookKeepsValid | library/catalog/views.py:113-116 | saving a valid new book keeps the database valid |
| CatalogModels.ReplaceBook | library/catalog/views.py:132 | the table keeps its length; the updated book is stored when its key existed; a row is stored afterwards exactly when it is the updated book or an old row with another key |
| CatalogModels.ReplaceBookLookup | library/catalog/views.py:132 | after the update, get_object on the book's key finds the new row, and on any other key finds what it found before |
| CatalogModels.ReplaceBookKeepsIds | library/catalog/views.py:132 | replacing a row by one with the same key keeps the key set, and every row is the new one or an old one |
| CatalogModels.ReplaceBookKeepsKeys | library/catalog/views.py:132 | replacing a row by one with the same key keeps the rows repeat-free and the keys unique |
| CatalogModels.ReplaceBookKeepsValid | library/catalog/views.py:132 | updating an existing book with valid fields keeps the database valid |
| CatalogModels.AddUserKeepsValid | library/accounts/views.py:48-52 | a new user that keeps the user table valid keeps the database valid |
| CatalogModels.DeleteBook | library/catalog/models.py:177-184 | removes exactly that book, with its comments and ratings |
| CatalogModels.DeleteBookKeepsValid | library/catalog/models.py:177-184 | the book cascade leaves no dangling comment or rating |
| CatalogModels.DeleteComment | library/catalog/views.py:172 | removes exactly that comment and changes no other table |
| CatalogModels.DeleteCommentKeepsValid | library/catalog/views.py:172 | deleting a comment keeps the database valid |
| CatalogModels.DeleteAuthor | library/catalog/models.py:91-98 | removes the author, the author's books, and those books' comments and ratings |
| CatalogModels.DeleteAuthorKeepsValid | library/catalog/models.py:91-98 | the author cascade leaves no dangling book, comment or rating |
| CatalogModels.NullAddedBy | library/catalog/models.py:118-124 | the table keeps its length; no book is attributed to the deleted user afterwards; the other users' books stay as they were; the deleted user's books stay with `added_by` null; no other row appears |
| CatalogModels.NullAddedByKeepsIds | library/catalog/models.py:118-124 | SET_NULL keeps the set of book keys |
| CatalogModels.NullAddedByKeepsKeys | library/catalog/models.py:118-124 | SET_NULL keeps the book rows repeat-free and their keys unique |
| CatalogModels.DeleteUser | library/catalog/models.py:118-124 | removes the user and the user's comments and ratings, and keeps the user's books with `added_by` null (comment cascade at lines 170-176) |
| CatalogModels.DeleteUserKeepsBooksValid | library/catalog/models.py:118-124 | after SET_NULL every book is still valid, and no book is deleted |
| CatalogModels.DeleteUserKeepsValid | library/catalog/models.py:118-124 | deleting a user keeps the database valid and keeps every book |
| Store.Library.constructor | library/catalog/models.py:26-199 | an empty site is valid |
| Store.NextIdIsFresh | library/catalog/models.py:27-29 | the next key is unused in every table |
| Store.CommentSaved | library/catalog/views.py:85-88 | a comment with the next key and the current time keeps the state valid, with the clock and the key moved on |
| Store.LatestCommentHeads | library/catalog/models.py:188-194 | a comment stamped later than every stored one heads its book's newest-first listing |
| Store.RatingSaved | library/catalog/views.py:92-95 | saving a rate of 1..5 by an existing user of an existing book keeps the state valid |
| Store.AuthorAdded | library/catalog/models.py:30-51 | a valid author with the next key keeps the state valid |
| Store.BookAdded | library/catalog/views.py:113-116 | a valid book with the next key, an existing author and an existing adder keeps the state valid |
| Store.BookReplaced | library/catalog/views.py:132 | replacing an existing book by a valid one keeps the state valid |
| Store.BookDeleted | library/catalog/models.py:177-184 | the book cascade keeps the state valid |
| Store.CommentDeleted | library/catalog/views.py:172 | deleting a comment keeps the state valid |
| Store.UserAdded | library/accounts/views.py:48-52 | a new user with the next key that keeps the user table valid keeps the state valid |
| Store.Library.CreateAuthor | library/catalog/models.py:30-51 | an error-free author is added with its defaults; otherwise nothing changes; validity is kept |
| Store.Library.SaveComment | library/catalog/views.py:85-88 | appends exactly one comment, with the next key, the requester, the book and the current time; moves the clock and the key on; the new comment heads its book's listing; validity is kept |
| Store.Library.SaveRating | library/catalog/views.py:92-95 | the ratings become the upsert of the new rate; nothing else changes; validity is kept |
| Store.Library.InsertBook | library/catalog/views.py:113-116 | appends exactly the given book with the next key; validity is kept |
| Store.Library.UpdateBook | library/catalog/views.py:132 | the row with the book's key becomes the given book; nothing else changes; validity is kept |
| Store.Library.RemoveBook | library/catalog/views.py:152 | the database becomes the book cascade of the old one; validity is kept |
| Store.Library.RemoveComment | library/catalog/views.py:172 | exactly that comment is removed; validity is kept |
| Store.Library.CreateUser | library/accounts/views.py:48-52 | stores the e-mail normalised; refuses the row and changes nothing exactly when its key, username or normalised e-mail is already stored (IntegrityError); otherwise appends exactly one user with the next key; validity is kept |
| Store.Library.LogIn | library/accounts/views.py:54 | the session becomes the given existing user's; nothing else changes |
| CatalogViews.ByAverageDescIsTotalPreorder | library/catalog/views.py:30-34 | the key of the index sort is a total preorder |
| CatalogViews.RatedBooks | library/catalog/views.py:31 | each rated book is kept as often as it is stored, and unrated books are dropped |
| CatalogViews.Index | library/catalog/views.py:29-34 | exactly the rated books, with their stored counts, ordered by average rating non-increasing |
| CatalogViews.IndexListsEachRatedBookOnce | library/catalog/views.py:31 | on a valid database the index has no repeats, and every listed book has an average |
| CatalogViews.Search | library/catalog/views.py:42-48 | no `q` or an empty one gives nothing; otherwise exactly the books whose title or author name contains `q` ignoring case, in the default order |
| CatalogViews.SearchFindsSubstrings | library/catalog/views.py:45-47 | a book is found exactly when the upper-cased query is a slice of its upper-cased title or author name |
| CatalogViews.SearchIgnoresQueryCase | library/catalog/views.py:46 | the query's case does not change the result |
| CatalogViews.AllBooks | library/catalog/views.py:51-54 | every book once per stored row, in title-then-author order |
| CatalogViews.BookListPages | library/catalog/views.py:51-54 | the book list counts every stored book, shows the first six without a `page` parameter, is paginated exactly when there are more than six books, and has the page count the tests compute |
| CatalogViews.AllAuthors | library/catalog/views.py:175-178 | every author, by name |
| CatalogViews.AuthorBooks | library/catalog/views.py:181-188 | 404 exactly for an unknown author; otherwise exactly that author's books, in the default order |
| CatalogViews.BookDetailPost | library/catalog/views.py:77-103 | anonymous requests get 403 and unknown books 404, with nothing changed. A valid comment is added with the requester, the book and the current time, and heads the book's comments; ratings are untouched. Otherwise a valid rate is upserted. Otherwise both forms' errors are shown and nothing changes |
| CatalogViews.BookCreatePost | library/catalog/views.py:106-116 | anonymous requests go to login; a form with errors is shown again unchanged; otherwise one valid book is added with `added_by` = requester, and the response redirects to its page |
| CatalogViews.BookUpdatePost | library/catalog/views.py:119-132 | login redirect; 404 for an unknown book; 403 with nothing changed for anyone but the book's adder; otherwise the form's fields replace the book's, keeping its key, `added_by` and (without an upload) its poster |
| CatalogViews.BookDeleteGet | library/catalog/views.py:141-144 | a GET is a login redirect or 405, and changes nothing |
| CatalogViews.BookDeletePost | library/catalog/views.py:146-152 | login redirect; 404; 403 for a non-adder with nothing changed; otherwise the book and its comments and ratings are removed, and the response redirects to the profile |
| CatalogViews.CommentDeleteGet | library/catalog/views.py:161-164 | a GET is a login redirect or 405, and changes nothing |
| CatalogViews.CommentDeletePost | library/catalog/views.py:155-172 | login redirect; 404 for an unknown comment; 403 for anyone but its author; otherwise exactly that comment is removed and the response redirects to the URL's book |
| AccountViews.ProfileBooks | library/accounts/views.py:26-27 | exactly the books the user added, with their counts, in the default order |
| AccountViews.DeletedBookLeavesProfile | library/accounts/views.py:26-27 | deleting a book removes it from the profile and leaves every other listed book |
| AccountViews.ProfileGet | library/accounts/views.py:20 | anonymous requests go to login with `next` = profile |
| AccountViews.RegisterDispatchAsWritten | library/accounts/views.py:37-42 | a logged-in user is redirected to the class attribute `success_url`, which is None |
| AccountViews.RegisterDispatchMissesIndex | library/accounts/views.py:41 | that redirect is not to the index |
| AccountViews.Register | library/accounts/views.py:30-55 | a logged-in user goes to the index and nothing changes; form errors change nothing; a valid form whose normalised e-mail is already stored gives HTTP 500 and changes nothing; any other valid form adds one user with the lower-cased username and normalised e-mail, logs that user in and redirects to the index |
| AccountViews.LoginErrors | library/accounts/views.py:16-17 | no error exactly when both fields are filled and authenticate finds the user; each field has its own error exactly when it is blank; two filled fields that authenticate no user give only the form-wide error (library/accounts/tests/test_views.py:42-48) |
| AccountViews.Login | library/accounts/views.py:16-17 | a logged-in user is sent on at once; valid credentials log in the user with that username and redirect; errors change nothing |
| CatalogExtras.Replaced | library/catalog/templatetags/catalog_extras.py:7-13 | truthy overrides appear as one-value lists; falsy overrides remove their key; request keys that are not overridden are kept unchanged exactly when truthy; no falsy key remains |
| CatalogExtras.ReplacedIdempotent | library/catalog/templatetags/catalog_extras.py:7-13 | applying the same overrides again changes nothing |
| CatalogExtras.ParamReplace | library/catalog/templatetags/catalog_extras.py:7-13 | the two loops compute exactly the map above |
| CatalogExtras.SetOverrides | library/catalog/templatetags/catalog_extras.py:8-10 | after the first loop, each override key holds [value] and every other request key is as it was |
| CatalogExtras.DeleteFalsy | library/catalog/templatetags/catalog_extras.py:11-12 | after the second loop, exactly the keys with a truthy last value remain, unchanged |

## Findings

| source | as written | input that shows it | evidently intended | confidence | as-written member | corrected member |
|---|---|---|---|---|---|---|
| library/accounts/views.py:40-41 | an authenticated request to the register page is redirected to `self.success_url`; RegisterUser never sets that FormView attribute, so it is None and the Location header reads "None" | a logged-in user opens the register page | redirect to the index, as get_success_url() (lines 34-35) and library/accounts/tests/test_views.py:135-138 say | medium, not executed | AccountViews.RegisterDispatchAsWritten | AccountViews.Register |

## Left out

- Templates, the widget filters `add_class` and `placeholder`, and `urlencode` are presentation code and library calls. `param_replace` is modelled up to the map it encodes.
- The REST API (`BooksListAPIView`, `BooksRetrieveAPIView`, `StandardResultsSetPagination`) and its serializer are read-only and not part of this model.
- The admin, URL routing, `UpperGinIndex` SQL, `preview()` HTML, media URLs and `__str__` texts are out of scope. The tests disagree with `BookComment.__str__`.
- Password hashing, the session machinery and the internals of Django's LoginView are not modelled. The session is the id of the logged-in user. A stored password stands for its hash.
- UUID keys are replaced by one counter that never repeats. `auto_now_add` is replaced by a clock that only moves forward, so a new comment is strictly newest.
- `date_of_birth` and the `publication_year` default are not modelled. `date_of_birth` defaults to `now()`, evaluated for each new author. The `publication_year` default is the year at the moment the module is imported, and stays fixed after that.
- The text order is code-point order, not the database collation. Case mapping covers ASCII and the basic Cyrillic alphabet, not all of Unicode.
- Form whitespace stripping and the form widgets' type coercion are not modelled. A posted field is a present or absent value of the right type.
- Store.Library.CreateAuthor: it models saving through a validating model form (the admin). `Author.objects.create` itself skips validation.
- CatalogViews.Index: does not claim which of two books with equal averages comes first. Python's sort is stable, so ties keep the default order.
- CatalogModels.Upsert: `BookRating`, its form and `average_rating` are not defined in catalog/models.py. The model assumes:
  - a rating has a rate of 1..5;
  - at most one rating exists per (user, book), and saving replaces it;
  - deleting the book or the user deletes the rating;
  - the average is the exact mean.
  Concurrent submissions are not modelled.
- Users.RegisterErrors: uniqueness of usernames is checked ignoring case, as Django's UserCreationForm does. Three more checks of that form are not modelled, so the model accepts input Django rejects: the username character validator (letters, digits and @/./+/-/_), the e-mail format check of EmailField, and the password validators. The user model itself is not part of this model.
- Store.Library.CreateUser: create_user also applies Unicode NFKC normalisation to the username; the model does not, which changes nothing for ASCII and Cyrillic names.
- CatalogModels.NewPoster: the name after "posters/" (and after "authors/" for a photo, through UploadPath, NewAuthor and UpdatedPoster) is the name Django's file storage chose, not the client's file name: get_valid_name turns spaces into underscores and drops characters other than letters, digits, "-", "_" and ".", and get_available_name adds a random suffix when the name is taken. The model takes that chosen name as its input and does not model the sanitising or the suffix.
- AccountViews.Login: redirects to `next` or the index. LOGIN_REDIRECT_URL is not part of this model, and the index is what the tests expect.
- BookUpdateView and BookCreateView GET pages only render forms, so they are not modelled.
