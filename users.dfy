/** The site's user accounts: the stored user record (unique username and e-mail), the
    username/password check behind `authenticate`, and the checks of the registration form. */
module Users {
  import opened Wrappers
  import opened Http
  import opened Text
  import opened Sorting

  /** A stored user. The password stands for Django's password hash. */
  datatype User = User(id: Id, username: string, email: string, password: string)

  /** Django's AbstractUser limits usernames to 150 characters. */
  const UsernameMaxLength := 150

  function UserIds(users: seq<User>): set<Id> {
    set u | u in users :: u.id
  }

  /** Primary keys, usernames and e-mail addresses are each unique. */
  ghost predicate ValidUsers(users: seq<User>) {
    && Distinct(users)
    && forall u, v :: u in users && v in users && u != v ==>
         u.id != v.id && u.username != v.username && u.email != v.email
  }

  /** The user `authenticate(username=..., password=...)` returns, if any. */
  function Authenticate(users: seq<User>, username: string, password: string): (r: Option<Id>)
    ensures r.Some? ==> exists u :: u in users && u.id == r.value && u.username == username && u.password == password
    ensures r.None? <==> forall u :: u in users ==> u.username != username || u.password != password
  {
    if users == [] then None
    else if users[0].username == username && users[0].password == password then Some(users[0].id)
    else
      assert users == [users[0]] + users[1..];
      Authenticate(users[1..], username, password)
  }

  /** The position of the last '@' in an address, if any. */
  function LastAt(s: string): (r: Option<nat>)
    ensures r.Some? ==> r.value < |s| && s[r.value] == '@' && forall j :: r.value < j < |s| ==> s[j] != '@'
    ensures r.None? <==> forall j :: 0 <= j < |s| ==> s[j] != '@'
  {
    if s == [] then None
    else if s[|s| - 1] == '@' then Some(|s| - 1)
    else LastAt(s[..|s| - 1])
  }

  /** Whether position `i` of an address lies in its domain, after the last '@'. */
  predicate InDomain(email: string, i: int) {
    LastAt(email).Some? && LastAt(email).value < i
  }

  /** BaseUserManager.normalize_email: the part after the last '@' is lower-cased; an address
      without '@' is kept. */
  function NormalizeEmail(email: string): (r: string)
    ensures |r| == |email|
    ensures Lower(r) == Lower(email)
    ensures forall i :: 0 <= i < |email| && !InDomain(email, i) ==> r[i] == email[i]
    ensures forall i :: 0 <= i < |email| && InDomain(email, i) ==> LowerChar(r[i]) == r[i]
  {
    seq(|email|, i requires 0 <= i < |email| => if InDomain(email, i) then LowerChar(email[i]) else email[i])
  }

  /** Normalising twice is normalising once. */
  lemma NormalizeEmailIdempotent(email: string)
    ensures NormalizeEmail(NormalizeEmail(email)) == NormalizeEmail(email)
  {
    var r := NormalizeEmail(email);
    assert forall j :: 0 <= j < |r| ==> (r[j] == '@' <==> email[j] == '@');
    assert LastAt(r) == LastAt(email) by {
      var a, b := LastAt(r), LastAt(email);
      if a.Some? && b.Some? {
        if b.value < a.value {
          assert email[a.value] == '@';
        }
      } else if a.Some? {
        assert email[a.value] == '@';
      } else if b.Some? {
        assert r[b.value] == '@';
      }
    }
  }

  /** The registration form as posted: username, e-mail, password and its confirmation. */
  datatype RegisterInput = RegisterInput(
    username: Option<string>, email: Option<string>, password1: Option<string>, password2: Option<string>)

  predicate Filled(v: Option<string>) {
    v.Some? && v.value != []
  }

  /** Some stored user has this username, ignoring case. */
  predicate UsernameTaken(users: seq<User>, username: string) {
    exists u :: u in users && Lower(u.username) == Lower(username)
  }

  predicate EmailTaken(users: seq<User>, email: string) {
    exists u :: u in users && u.email == email
  }

  /** The row would break a unique column of the user table: its key, its username or its
      e-mail is already stored, exactly as written. */
  predicate Clashes(users: seq<User>, u: User) {
    exists v :: v in users && (v.id == u.id || v.username == u.username || v.email == u.email)
  }

  /** A row that clashes with no stored row keeps the user table valid. */
  lemma AddUserKeepsValidUsers(users: seq<User>, u: User)
    requires ValidUsers(users) && !Clashes(users, u)
    ensures ValidUsers(users + [u])
  {
    assert u !in users;
    DistinctAppend(users, u);
  }

  /** The fields the registration form reports errors on. */
  function RegisterErrors(users: seq<User>, f: RegisterInput): (errors: set<Field>)
    ensures errors <= {Username, Email, Password1, Password2}
    ensures Username in errors <==>
      !Filled(f.username) || |f.username.value| > UsernameMaxLength || UsernameTaken(users, f.username.value)
    ensures Email in errors <==> !Filled(f.email) || EmailTaken(users, f.email.value)
    ensures Password1 in errors <==> !Filled(f.password1)
    ensures Password2 in errors <==>
      !Filled(f.password2) || (Filled(f.password1) && f.password1.value != f.password2.value)
  {
    (if !Filled(f.username) || |f.username.value| > UsernameMaxLength || UsernameTaken(users, f.username.value)
     then {Username} else {})
    + (if !Filled(f.email) || EmailTaken(users, f.email.value) then {Email} else {})
    + (if !Filled(f.password1) then {Password1} else {})
    + (if !Filled(f.password2) || (Filled(f.password1) && f.password1.value != f.password2.value)
       then {Password2} else {})
  }

  /** The row `create_user` is asked to store for an accepted form: the lower-cased username,
      the normalised e-mail and the password. */
  function NewUser(id: Id, f: RegisterInput): User
    requires f.username.Some? && f.email.Some? && f.password1.Some?
  {
    User(id, Lower(f.username.value), NormalizeEmail(f.email.value), f.password1.value)
  }

  /** The form's own checks leave exactly one way for an accepted form's row to break a unique
      column: its normalised e-mail is stored already (it differed from a stored one only in the
      case of its domain). */
  lemma AcceptedFormClashesOnlyByEmail(users: seq<User>, f: RegisterInput, id: Id)
    requires id !in UserIds(users) && RegisterErrors(users, f) == {}
    ensures Clashes(users, NewUser(id, f)) <==> EmailTaken(users, NormalizeEmail(f.email.value))
  {
    var u := NewUser(id, f);
    LowerIdempotent(f.username.value);
    forall v | v in users ensures v.username != u.username && v.id != id {
      assert Lower(v.username) != Lower(u.username);
    }
  }

  /** An accepted form whose normalised e-mail is new creates a user that keeps usernames and
      e-mails unique, and `authenticate` with the lower-cased username then finds that user. */
  lemma {:induction false} RegisteredUserAuthenticates(users: seq<User>, f: RegisterInput, id: Id)
    requires ValidUsers(users) && id !in UserIds(users)
    requires RegisterErrors(users, f) == {} && !EmailTaken(users, NormalizeEmail(f.email.value))
    ensures ValidUsers(users + [NewUser(id, f)])
    ensures Authenticate(users + [NewUser(id, f)], Lower(f.username.value), f.password1.value) == Some(id)
  {
    var u := NewUser(id, f);
    var all := users + [u];
    AcceptedFormClashesOnlyByEmail(users, f, id);
    AddUserKeepsValidUsers(users, u);
    var r := Authenticate(all, u.username, u.password);
    assert u in all;
    var w :| w in all && w.id == r.value && w.username == u.username && w.password == u.password;
    assert w !in users;
    assert w == u;
  }

  /** The form compares e-mails exactly, so "a@EXAMPLE.com" passes next to a stored
      "a@example.com"; its normalised form is the stored address. */
  lemma DomainCaseSlipsPastForm()
    ensures var users := [User(0, "a", "a@example.com", "p")];
            var f := RegisterInput(Some("b"), Some("a@EXAMPLE.com"), Some("pw"), Some("pw"));
            RegisterErrors(users, f) == {} && EmailTaken(users, NormalizeEmail(f.email.value))
  {
    var users := [User(0, "a", "a@example.com", "p")];
    var e := "a@EXAMPLE.com";
    assert Lower("a") == "a" && Lower("b") == "b";
    assert !UsernameTaken(users, "b");
    assert !EmailTaken(users, e) by {
      assert e != "a@example.com" by { assert e[2] != "a@example.com"[2]; }
    }
    assert e[1] == '@' && forall j :: 0 <= j < |e| && j != 1 ==> e[j] != '@';
    assert LastAt(e) == Some(1);
    assert NormalizeEmail(e) == "a@example.com";
    assert users[0] in users;
  }
}
