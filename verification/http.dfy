/** What a handler hands back: an HTTP status with a JSON body, together
    with the database state after the request. */
module Http {
  import opened Wrappers
  import opened Model

  /** The payload a session token is signed over: `{userId}` with the
      `expiresIn` option of the signing call. */
  datatype Claims = Claims(userId: Id, expiresIn: string)

  /** The owner of a listed book as `populate("user", "username profileImage")` expands it. */
  datatype OwnerView = OwnerView(id: Id, username: string, profileImage: string)

  /** A listed book; `owner` is None when the referenced user does not exist. */
  datatype ListedBook = ListedBook(book: Book, owner: Option<OwnerView>)

  datatype Body =
    | Msg(message: string)
    | Session(token: string, user: PublicUser)
    | BookDoc(book: Book)
    | Page(listed: seq<ListedBook>, currentPage: nat, totalBooks: nat, totalPages: nat)
    | Books(books: seq<Book>)

  datatype Response = Response(status: nat, body: Body)

  /** The store after a request and the response sent for it. */
  datatype Handled = Handled(store: Store, response: Response)

  /** A request field as the JavaScript truthiness test sees it: absent and
      empty strings are falsy. */
  predicate Filled(f: Option<string>) {
    f.Some? && |f.value| > 0
  }

  function Reply(s: Store, status: nat, message: string): Handled {
    Handled(s, Response(status, Msg(message)))
  }
}
