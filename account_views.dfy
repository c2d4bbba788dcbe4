/** The account pages: the profile listing of the books a user added, registration (which
    logs the new user in) and the login page. */
module AccountViews {
  import opened Wrappers
  import opened Http
  import opened Text
  import opened Sorting
  import opened Users
  import opened CatalogModels
  import opened Store

  /** AccountProfileView.get_queryset: the books the user added, in the default order. */
  function ProfileBooks(db: Db, user: Id): (r: seq<Book>)
    ensures forall b :: multiset(r)[b] == if b.addedBy == Some(user) then multiset(db.books)[b] else 0
    ensures forall b :: b in r <==> b in db.books && b.addedBy == Some(user)
    ensures Sorted(r, BookOrder(db.authors))
  {
    BookOrderIsTotalPreorder(db.authors);
    var mine := Filter(db.books, (b: Book) => b.addedBy == Some(user));
    var r := SortBy(mine, BookOrder(db.authors));
    forall b ensures b in r <==> b in db.books && b.addedBy == Some(user) {
      assert b in r <==> b in multiset(r);
      assert b in db.books <==> b in multiset(db.books);
    }
    r
  }

  /** Deleting a book the user added takes it off the user's profile and leaves the rest of
      the profile as it was. */
  lemma DeletedBookLeavesProfile(db: Db, id: Id, user: Id)
    ensures forall b :: b in ProfileBooks(DeleteBook(db, id), user) <==> b in ProfileBooks(db, user) && b.id != id
  {
  }

  /** The profile page needs a login: an anonymous request is sent to the login page, which
      returns to the profile afterwards. A logged-in user gets the page; its listing is
      ProfileBooks of that user, paged by PageFor. */
  method ProfileGet(lib: Library) returns (r: Response)
    ensures lib.session.None? ==> r == LoginRedirect(Profile)
    ensures lib.session.Some? ==> r == Ok({})
  {
    if lib.session.None? {
      r := LoginRedirect(Profile);
    } else {
      r := Ok({});
    }
  }

  /** RegisterUser.dispatch as written: a logged-in user is redirected to `self.success_url`,
      the class attribute FormView leaves at None (only get_success_url() names the index), so
      the Location header holds the text "None". */
  function RegisterDispatchAsWritten(session: Option<Id>): (r: Option<Response>)
    ensures r.Some? <==> session.Some?
  {
    if session.Some? then Some(Redirect(Literal("None"))) else None
  }

  /** A logged-in user is not sent to the index by the code as written. */
  lemma RegisterDispatchMissesIndex(user: Id)
    ensures RegisterDispatchAsWritten(Some(user)) != Some(Redirect(Index))
    ensures RegisterDispatchAsWritten(Some(user)) == Some(Redirect(Literal("None")))
  {
  }

  /** RegisterUser, with dispatch corrected to get_success_url(): a logged-in user is sent to
      the index and nothing is created; a GET (no form) shows the empty form; a form with
      errors is shown again. An accepted form asks create_user for the lower-cased username and
      the normalised e-mail: when that e-mail is already stored (it differed only in the case of
      its domain) the unique column refuses it, the response is HTTP 500 and nothing changes;
      otherwise one user is added, logged in and sent to the index. */
  method Register(lib: Library, form: Option<RegisterInput>) returns (r: Response)
    requires lib.Valid()
    modifies lib
    ensures lib.Valid() && lib.clock == old(lib.clock)
    ensures old(lib.session).Some? ==> r == Redirect(Index) && unchanged(lib)
    ensures old(lib.session).None? && form.None? ==> r == Ok({}) && unchanged(lib)
    ensures old(lib.session).None? && form.Some? && RegisterErrors(old(lib.db.users), form.value) != {} ==>
      r == Ok(RegisterErrors(old(lib.db.users), form.value)) && unchanged(lib)
    ensures old(lib.session).None? && form.Some? && RegisterErrors(old(lib.db.users), form.value) == {} ==>
      var f := form.value;
      && (EmailTaken(old(lib.db.users), NormalizeEmail(f.email.value)) ==>
            && r == ServerError
            && lib.db == old(lib.db) && lib.nextId == old(lib.nextId) && lib.session == old(lib.session))
      && (!EmailTaken(old(lib.db.users), NormalizeEmail(f.email.value)) ==>
            && lib.db == old(lib.db).(users := old(lib.db.users) + [NewUser(old(lib.nextId), f)])
            && lib.nextId == old(lib.nextId) + 1
            && lib.session == Some(old(lib.nextId))
            && r == Redirect(Index))
  {
    if lib.session.Some? {
      return Redirect(Index);
    }
    if form.None? {
      return Ok({});
    }
    var f := form.value;
    var errors := RegisterErrors(lib.db.users, f);
    if errors != {} {
      return Ok(errors);
    }
    var username := Lower(f.username.value);
    NextIdIsFresh(lib.db, lib.nextId);
    AcceptedFormClashesOnlyByEmail(lib.db.users, f, lib.nextId);
    if EmailTaken(lib.db.users, NormalizeEmail(f.email.value)) {
      assert Clashes(lib.db.users, NewUser(lib.nextId, f));
      var refused := lib.CreateUser(username, f.email.value, f.password1.value);
      assert refused.None?;
      return ServerError;
    }
    RegisteredUserAuthenticates(lib.db.users, f, lib.nextId);
    var created := lib.CreateUser(username, f.email.value, f.password1.value);
    var session := Authenticate(lib.db.users, username, f.password1.value);
    assert created.value in lib.db.users;
    lib.LogIn(session.value);
    r := Redirect(Index);
  }

  /** The login form as posted. */
  datatype Credentials = Credentials(username: Option<string>, password: Option<string>)

  /** The fields AuthenticationForm reports: each missing field, or, with both filled, a
      form-wide error when no user has that username and password. */
  function LoginErrors(users: seq<User>, c: Credentials): (errors: set<Field>)
    ensures errors == {} <==> Filled(c.username) && Filled(c.password) && Authenticate(users, c.username.value, c.password.value).Some?
    ensures NonField in errors ==> Filled(c.username) && Filled(c.password)
    ensures Username in errors <==> !Filled(c.username)
    ensures Password in errors <==> !Filled(c.password)
    ensures Filled(c.username) && Filled(c.password) && Authenticate(users, c.username.value, c.password.value).None? ==>
      errors == {NonField}
  {
    if !Filled(c.username) || !Filled(c.password) then
      (if Filled(c.username) then {} else {Username}) + (if Filled(c.password) then {} else {Password})
    else if Authenticate(users, c.username.value, c.password.value).None? then {NonField}
    else {}
  }

  /** AccountLoginView with redirect_authenticated_user: a logged-in user is sent on at once;
      a GET shows the form; valid credentials log the user in and send the browser to `next`
      (the index by default); anything else shows the form again with its errors. */
  method Login(lib: Library, next: Option<Url>, form: Option<Credentials>) returns (r: Response)
    requires lib.Valid()
    modifies lib
    ensures lib.Valid() && lib.db == old(lib.db) && lib.nextId == old(lib.nextId) && lib.clock == old(lib.clock)
    ensures old(lib.session).Some? ==> r == Redirect(next.GetOr(Index)) && unchanged(lib)
    ensures old(lib.session).None? && form.None? ==> r == Ok({}) && unchanged(lib)
    ensures old(lib.session).None? && form.Some? && LoginErrors(lib.db.users, form.value) != {} ==>
      r == Ok(LoginErrors(lib.db.users, form.value)) && unchanged(lib)
    ensures old(lib.session).None? && form.Some? && LoginErrors(lib.db.users, form.value) == {} ==>
      && lib.session == Authenticate(lib.db.users, form.value.username.value, form.value.password.value)
      && (exists u :: u in lib.db.users && Some(u.id) == lib.session && u.username == form.value.username.value)
      && r == Redirect(next.GetOr(Index))
  {
    if lib.session.Some? {
      return Redirect(next.GetOr(Index));
    }
    if form.None? {
      return Ok({});
    }
    var errors := LoginErrors(lib.db.users, form.value);
    if errors != {} {
      return Ok(errors);
    }
    var user := Authenticate(lib.db.users, form.value.username.value, form.value.password.value);
    lib.LogIn(user.value);
    r := Redirect(next.GetOr(Index));
  }
}
