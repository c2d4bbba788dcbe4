/** The state every request handler works on: the database, the user the session is logged in
    as, the clock that stamps new comments, and the source of fresh primary keys. The class
    `Library` holds that state; its methods are the ORM writes the views make (`save()`,
    `create_user()`, `delete()`), each proved against the model's functions. */
module Store {
  import opened Wrappers
  import opened Http
  import opened Users
  import opened Sorting
  import opened CatalogModels

  /** Every stored key is below `nextId`. */
  ghost predicate KeysBelow(db: Db, nextId: nat) {
    && (forall u :: u in db.users ==> u.id < nextId)
    && (forall a :: a in db.authors ==> a.id < nextId)
    && (forall b :: b in db.books ==> b.id < nextId)
    && (forall c :: c in db.comments ==> c.id < nextId)
  }

  /** Every stored comment was posted before `clock`. */
  ghost predicate PostedBefore(comments: seq<BookComment>, clock: nat) {
    forall c :: c in comments ==> c.createdAt < clock
  }

  /** The database is valid, every key is below `nextId`, every comment is older than the
      clock, and the session's user exists. */
  ghost predicate StateValid(db: Db, session: Option<Id>, clock: nat, nextId: nat) {
    && ValidDb(db)
    && KeysBelow(db, nextId)
    && PostedBefore(db.comments, clock)
    && (session.Some? ==> session.value in UserIds(db.users))
  }

  /** The next key is fresh in every table. */
  lemma NextIdIsFresh(db: Db, nextId: nat)
    requires KeysBelow(db, nextId)
    ensures nextId !in UserIds(db.users) && nextId !in AuthorIds(db.authors)
    ensures nextId !in BookIds(db.books) && nextId !in CommentIds(db.comments)
  {
  }

  /** A comment stamped with the clock and the next key keeps the state valid. */
  lemma CommentSaved(db: Db, session: Option<Id>, clock: nat, nextId: nat, c: BookComment)
    requires StateValid(db, session, clock, nextId)
    requires c.id == nextId && c.createdAt == clock
    requires c.user in UserIds(db.users) && c.book in BookIds(db.books) && TextOk(c.content, ContentMaxLength)
    ensures StateValid(db.(comments := db.comments + [c]), session, clock + 1, nextId + 1)
  {
    NextIdIsFresh(db, nextId);
    AddCommentKeepsValid(db, c);
  }

  /** A comment stamped later than every stored one heads its book's newest-first listing. */
  lemma LatestCommentHeads(comments: seq<BookComment>, db: Db, clock: nat, c: BookComment)
    requires PostedBefore(comments, clock) && c.createdAt == clock
    requires db.comments == comments + [c]
    ensures CommentsOf(db, c.book) != [] && CommentsOf(db, c.book)[0] == c
  {
    assert forall d :: d in db.comments ==> d in comments || d == c;
    NewestCommentFirst(db, c);
  }

  /** Saving a rating keeps the state valid. */
  lemma RatingSaved(db: Db, session: Option<Id>, clock: nat, nextId: nat, user: Id, book: Id, rate: int)
    requires StateValid(db, session, clock, nextId)
    requires user in UserIds(db.users) && book in BookIds(db.books) && ValidRate(rate)
    ensures StateValid(db.(ratings := Upsert(db.ratings, user, book, rate)), session, clock, nextId)
  {
    UpsertKeepsValid(db, user, book, rate);
  }

  /** A new valid author under the next key keeps the state valid. */
  lemma AuthorAdded(db: Db, session: Option<Id>, clock: nat, nextId: nat, a: Author)
    requires StateValid(db, session, clock, nextId) && a.id == nextId && ValidAuthor(a)
    ensures StateValid(db.(authors := db.authors + [a]), session, clock, nextId + 1)
  {
    NextIdIsFresh(db, nextId);
    assert a !in db.authors;
    DistinctAppend(db.authors, a);
  }

  /** A new valid book under the next key keeps the state valid. */
  lemma BookAdded(db: Db, session: Option<Id>, clock: nat, nextId: nat, b: Book)
    requires StateValid(db, session, clock, nextId)
    requires b.id == nextId && ValidBook(b) && b.author in AuthorIds(db.authors)
    requires b.addedBy.Some? ==> b.addedBy.value in UserIds(db.users)
    ensures StateValid(db.(books := db.books + [b]), session, clock, nextId + 1)
  {
    NextIdIsFresh(db, nextId);
    AddBookKeepsValid(db, b);
  }

  /** Updating an existing book with valid fields keeps the state valid. */
  lemma BookReplaced(db: Db, session: Option<Id>, clock: nat, nextId: nat, b: Book)
    requires StateValid(db, session, clock, nextId)
    requires b.id in BookIds(db.books) && ValidBook(b) && b.author in AuthorIds(db.authors)
    requires b.addedBy.Some? ==> b.addedBy.value in UserIds(db.users)
    ensures StateValid(db.(books := ReplaceBook(db.books, b)), session, clock, nextId)
  {
    ReplaceBookKeepsValid(db, b);
    ReplaceBookKeepsIds(db.books, b);
  }

  /** Deleting a book (with its cascade) keeps the state valid. */
  lemma BookDeleted(db: Db, session: Option<Id>, clock: nat, nextId: nat, id: Id)
    requires StateValid(db, session, clock, nextId)
    ensures StateValid(DeleteBook(db, id), session, clock, nextId)
  {
    DeleteBookKeepsValid(db, id);
  }

  /** Deleting a comment keeps the state valid. */
  lemma CommentDeleted(db: Db, session: Option<Id>, clock: nat, nextId: nat, id: Id)
    requires StateValid(db, session, clock, nextId)
    ensures StateValid(DeleteComment(db, id), session, clock, nextId)
  {
    DeleteCommentKeepsValid(db, id);
  }

  /** A new user under the next key that keeps the user table valid keeps the state valid. */
  lemma UserAdded(db: Db, session: Option<Id>, clock: nat, nextId: nat, u: User)
    requires StateValid(db, session, clock, nextId) && u.id == nextId && ValidUsers(db.users + [u])
    ensures StateValid(db.(users := db.users + [u]), session, clock, nextId + 1)
  {
    AddUserKeepsValid(db, u);
    assert UserIds(db.users) <= UserIds(db.users + [u]);
  }

  class Library {
    var db: Db
    /** The logged-in user of the requesting session, if any. */
    var session: Option<Id>
    /** The time `auto_now_add` stamps on the next comment; it only moves forward. */
    var clock: nat
    /** A key no stored row has yet; it stands for a new UUID (or the next user id). */
    var nextId: nat

    ghost predicate Valid()
      reads this
    {
      StateValid(db, session, clock, nextId)
    }

    /** An empty site with nobody logged in. */
    constructor ()
      ensures Valid()
      ensures db == Db([], [], [], [], []) && session == None
    {
      db := Db([], [], [], [], []);
      session := None;
      clock := 0;
      nextId := 0;
    }

    /** Saving an author through a model form (the admin): an error-free submission adds one
        author, with the placeholder photo when none was uploaded; otherwise nothing changes. */
    method CreateAuthor(f: AuthorInput) returns (errors: set<Field>)
      requires Valid()
      modifies this
      ensures Valid()
      ensures errors == AuthorErrors(f)
      ensures errors != {} ==> db == old(db) && nextId == old(nextId)
      ensures errors == {} ==>
        db == old(db).(authors := old(db.authors) + [NewAuthor(old(nextId), f)]) && nextId == old(nextId) + 1
      ensures session == old(session) && clock == old(clock)
    {
      errors := AuthorErrors(f);
      if errors == {} {
        var a := NewAuthor(nextId, f);
        AuthorAdded(db, session, clock, nextId, a);
        db := db.(authors := db.authors + [a]);
        nextId := nextId + 1;
      }
    }

    /** comment_form.save(): stores a comment stamped with the clock; it is the newest comment
        of its book, so it heads the book's listing. */
    method SaveComment(user: Id, book: Id, content: string) returns (c: BookComment)
      requires Valid() && user in UserIds(db.users) && book in BookIds(db.books)
      requires TextOk(content, ContentMaxLength)
      modifies this
      ensures Valid()
      ensures c == BookComment(old(nextId), user, book, content, old(clock))
      ensures db == old(db).(comments := old(db.comments) + [c])
      ensures nextId == old(nextId) + 1 && clock == old(clock) + 1 && session == old(session)
      ensures CommentsOf(db, book) != [] && CommentsOf(db, book)[0] == c
    {
      c := BookComment(nextId, user, book, content, clock);
      var before := db.comments;
      CommentSaved(db, session, clock, nextId, c);
      db, nextId, clock := db.(comments := db.comments + [c]), nextId + 1, clock + 1;
      LatestCommentHeads(before, db, clock - 1, c);
    }

    /** rating_form.save(): the rater's rating of the book now holds `rate`. */
    method SaveRating(user: Id, book: Id, rate: int)
      requires Valid() && user in UserIds(db.users) && book in BookIds(db.books) && ValidRate(rate)
      modifies this
      ensures Valid()
      ensures db == old(db).(ratings := Upsert(old(db.ratings), user, book, rate))
      ensures nextId == old(nextId) && clock == old(clock) && session == old(session)
    {
      RatingSaved(db, session, clock, nextId, user, book, rate);
      db := db.(ratings := Upsert(db.ratings, user, book, rate));
    }

    /** form.save() of a new book under the next key. */
    method InsertBook(b: Book)
      requires Valid() && b.id == nextId && ValidBook(b) && b.author in AuthorIds(db.authors)
      requires b.addedBy.Some? ==> b.addedBy.value in UserIds(db.users)
      modifies this
      ensures Valid()
      ensures db == old(db).(books := old(db.books) + [b])
      ensures nextId == old(nextId) + 1 && clock == old(clock) && session == old(session)
    {
      BookAdded(db, session, clock, nextId, b);
      db := db.(books := db.books + [b]);
      nextId := nextId + 1;
    }

    /** form.save() of an existing book: the row with that key becomes `b`. */
    method UpdateBook(b: Book)
      requires Valid() && b.id in BookIds(db.books) && ValidBook(b) && b.author in AuthorIds(db.authors)
      requires b.addedBy.Some? ==> b.addedBy.value in UserIds(db.users)
      modifies this
      ensures Valid()
      ensures db == old(db).(books := ReplaceBook(old(db.books), b))
      ensures nextId == old(nextId) && clock == old(clock) && session == old(session)
    {
      BookReplaced(db, session, clock, nextId, b);
      db := db.(books := ReplaceBook(db.books, b));
    }

    /** book.delete(), with the cascade to its comments and ratings. */
    method RemoveBook(id: Id)
      requires Valid()
      modifies this
      ensures Valid()
      ensures db == DeleteBook(old(db), id)
      ensures nextId == old(nextId) && clock == old(clock) && session == old(session)
    {
      BookDeleted(db, session, clock, nextId, id);
      db := DeleteBook(db, id);
    }

    /** comment.delete(). */
    method RemoveComment(id: Id)
      requires Valid()
      modifies this
      ensures Valid()
      ensures db == DeleteComment(old(db), id)
      ensures nextId == old(nextId) && clock == old(clock) && session == old(session)
    {
      CommentDeleted(db, session, clock, nextId, id);
      db := DeleteComment(db, id);
    }

    /** User.objects.create_user(): normalises the e-mail and stores the row under the next key,
        unless a unique column (username or e-mail, compared exactly) already holds its value,
        in which case the database raises IntegrityError and nothing is stored. */
    method CreateUser(username: string, email: string, password: string) returns (u: Option<User>)
      requires Valid()
      modifies this
      ensures Valid()
      ensures u.None? <==> Clashes(old(db.users), User(old(nextId), username, NormalizeEmail(email), password))
      ensures u.None? ==> db == old(db) && nextId == old(nextId)
      ensures u.Some? ==>
        && u.value == User(old(nextId), username, NormalizeEmail(email), password)
        && db == old(db).(users := old(db.users) + [u.value])
        && nextId == old(nextId) + 1
      ensures clock == old(clock) && session == old(session)
    {
      var row := User(nextId, username, NormalizeEmail(email), password);
      if Clashes(db.users, row) {
        return None;
      }
      AddUserKeepsValidUsers(db.users, row);
      UserAdded(db, session, clock, nextId, row);
      db := db.(users := db.users + [row]);
      nextId := nextId + 1;
      u := Some(row);
    }

    /** login(): the session is now the given user's. */
    method LogIn(user: Id)
      requires Valid() && user in UserIds(db.users)
      modifies this
      ensures Valid()
      ensures session == Some(user)
      ensures db == old(db) && nextId == old(nextId) && clock == old(clock)
    {
      session := Some(user);
    }
  }
}
