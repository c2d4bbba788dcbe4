/** The vocabulary the request handlers answer in: the pages of the site (as named routes),
    the fields a form can report an error on, and the kind of response a handler returns. */
module Http {

  type Id = nat

  /** The named routes of the site that a handler can redirect to. */
  datatype Url =
    | Index
    | Profile
    | BookDetail(book: Id)
    | BookCreate
    | BookUpdate(book: Id)
    | BookDelete(book: Id)
    | CommentDelete(bookId: Id, comment: Id)
    | Login(next: Url)
    /** A Location header that names no route, taken literally. */
    | Literal(location: string)

  /** The form fields that validation can attach an error to; NonField is Django's "__all__". */
  datatype Field =
    | Name
    | Bio
    | Title
    | AuthorField
    | Summary
    | PublicationYear
    | Content
    | Rate
    | Username
    | Password
    | Email
    | Password1
    | Password2
    | NonField

  /** Ok(errors) is a 200 page; its error set is empty unless a form is re-rendered with errors. */
  datatype Response =
    | Ok(errors: set<Field>)
    | Redirect(to: Url)
    | Forbidden
    | NotAllowed
    | NotFound
    /** HTTP 500: the database refused the row (IntegrityError), and nothing was stored. */
    | ServerError

  /** Django's login_required redirect: to the login page, returning to `here` afterwards. */
  function LoginRedirect(here: Url): Response {
    Redirect(Login(here))
  }
}
