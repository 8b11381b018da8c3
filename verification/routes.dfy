/** The routes as the router wires them: each book handler behind the gate,
    and the properties that span several handlers — the store invariant,
    tokens that authenticate, and registration followed by login. */
module Routes {
  import opened Wrappers
  import opened Model
  import opened Ordering
  import opened Http
  import opened AuthGate
  import opened AuthRoutes
  import opened BookRoutes

  /** POST /books. A book is only ever created for the user the header's
      token resolves to, and that user is in the store. */
  function PostBook(s: Store, header: Option<string>, verify: string -> Option<Id>,
                    req: BookRequest, upload: string -> UploadResult, now: nat): (h: Handled)
    ensures h.response.status == 401 <==> ProtectRoute(s, header, verify).Reject401?
    ensures ProtectRoute(s, header, verify).Reject401? ==>
              h == Reply(s, 401, ProtectRoute(s, header, verify).message)
    ensures ProtectRoute(s, header, verify).Proceed? ==>
              h == CreateBook(s, ProtectRoute(s, header, verify).user, req, upload, now)
    ensures h.response.status != 201 ==> h.store == s
    ensures h.response.status == 201 ==> |h.store.books| == |s.books| + 1
    ensures h.response.status == 201 ==>
              var b := h.store.books[|s.books|];
              && TokenOf(header).Some?
              && verify(TokenOf(header).value) == Some(b.owner)
              && HasUser(s, b.owner)
  {
    match ProtectRoute(s, header, verify)
    case Reject401(m) => Reply(s, 401, m)
    case Proceed(u) => CreateBook(s, u, req, upload, now)
  }

  /** GET /books: never changes the store; a 200 page for any caller the
      gate lets through. */
  function GetBooks(s: Store, header: Option<string>, verify: string -> Option<Id>,
                    page: Option<nat>, limit: Option<nat>): (h: Handled)
    requires page.Some? ==> page.value >= 1
    requires limit.Some? ==> limit.value >= 1
    ensures h.store == s
    ensures h.response.status in {200, 401}
    ensures h.response.status == 200 <==> ProtectRoute(s, header, verify).Proceed?
    ensures h.response.status == 200 ==> h.response.body.Page? && h.response.body.totalBooks == |s.books|
    ensures ProtectRoute(s, header, verify).Reject401? ==>
              h == Reply(s, 401, ProtectRoute(s, header, verify).message)
    ensures ProtectRoute(s, header, verify).Proceed? ==> h == ListBooks(s, page, limit)
  {
    match ProtectRoute(s, header, verify)
    case Reject401(m) => Reply(s, 401, m)
    case Proceed(_) => ListBooks(s, page, limit)
  }

  /** DELETE /books/:id. Only a book whose owner is the user the token
      resolves to is ever removed, and nothing else is. */
  function DeleteBookRoute(s: Store, header: Option<string>, verify: string -> Option<Id>,
                           id: Id, destroy: string -> bool): (d: DeleteOutcome)
    ensures ProtectRoute(s, header, verify).Reject401? ==>
              d == DeleteOutcome(Reply(s, 401, ProtectRoute(s, header, verify).message), NoCleanup)
    ensures ProtectRoute(s, header, verify).Proceed? ==>
              d == DeleteBook(s, ProtectRoute(s, header, verify).user, id, destroy)
    ensures d.handled.response.status != 200 ==> d.handled.store == s && d.cleanup == NoCleanup
    ensures d.handled.response.status == 200 ==>
              && TokenOf(header).Some?
              && verify(TokenOf(header).value).Some?
              && (exists i :: FirstWithId(s.books, id, i) &&
                              s.books[i].owner == verify(TokenOf(header).value).value)
              && forall b :: multiset(d.handled.store.books)[b] ==
                             if b.id == id then 0 else multiset(s.books)[b]
  {
    match ProtectRoute(s, header, verify)
    case Reject401(m) => DeleteOutcome(Reply(s, 401, m), NoCleanup)
    case Proceed(u) => DeleteBook(s, u, id, destroy)
  }

  /** GET /books/user: exactly the caller's books, newest first. */
  function GetUserBooks(s: Store, header: Option<string>, verify: string -> Option<Id>): (h: Handled)
    ensures h.store == s
    ensures h.response.status == 200 <==> ProtectRoute(s, header, verify).Proceed?
    ensures ProtectRoute(s, header, verify).Reject401? ==>
              h == Reply(s, 401, ProtectRoute(s, header, verify).message)
    ensures ProtectRoute(s, header, verify).Proceed? ==>
              h == BooksOfUser(s, ProtectRoute(s, header, verify).user)
    ensures h.response.status == 200 ==>
              && h.response.body.Books?
              && NewestFirst(h.response.body.books)
              && forall b :: multiset(h.response.body.books)[b] ==
                             if b.owner == verify(TokenOf(header).value).value then multiset(s.books)[b] else 0
  {
    match ProtectRoute(s, header, verify)
    case Reject401(m) => Reply(s, 401, m)
    case Proceed(u) => BooksOfUser(s, u)
  }

  /** A token that does not verify is turned away by every book route, with
      the store left as it was. */
  lemma UnverifiedTokenRejectedEverywhere(s: Store, header: Option<string>, verify: string -> Option<Id>,
                                          req: BookRequest, upload: string -> UploadResult, now: nat,
                                          page: Option<nat>, limit: Option<nat>, id: Id, destroy: string -> bool)
    requires page.Some? ==> page.value >= 1
    requires limit.Some? ==> limit.value >= 1
    requires TokenOf(header).Some? && TokenOf(header).value != ""
    requires verify(TokenOf(header).value).None?
    ensures PostBook(s, header, verify, req, upload, now) == Reply(s, 401, MsgTokenNotValid)
    ensures GetBooks(s, header, verify, page, limit) == Reply(s, 401, MsgTokenNotValid)
    ensures DeleteBookRoute(s, header, verify, id, destroy) == DeleteOutcome(Reply(s, 401, MsgTokenNotValid), NoCleanup)
    ensures GetUserBooks(s, header, verify) == Reply(s, 401, MsgTokenNotValid)
  {
  }

  /** Registration keeps the store valid. */
  lemma RegisterPreservesValid(s: Store, req: RegisterRequest, sign: Claims -> string)
    requires Valid(s)
    ensures Valid(Register(s, req, sign).store)
  {
    var h := Register(s, req, sign);
    if h.response.status == 201 {
      var s' := h.store;
      var n := |s.users|;
      var u := s'.users[n];
      assert s'.users == s.users + [u] by {
        assert s'.users == s'.users[..n] + [s'.users[n]];
      }
      forall i, j | 0 <= i < j < |s'.users|
        ensures s'.users[i].id != s'.users[j].id
        ensures s'.users[i].email != s'.users[j].email
        ensures s'.users[i].username != s'.users[j].username
      {
        if j == n {
          assert s'.users[i] in s.users;
        }
      }
      forall b | b in s'.books ensures HasUser(s', b.owner) {
        var w :| w in s.users && w.id == b.owner;
        assert w in s'.users;
      }
    }
  }

  /** Creating a book through the gate keeps the store valid: the owner is
      the authenticated, stored user and the id is fresh. */
  lemma PostBookPreservesValid(s: Store, header: Option<string>, verify: string -> Option<Id>,
                               req: BookRequest, upload: string -> UploadResult, now: nat)
    requires Valid(s)
    ensures Valid(PostBook(s, header, verify, req, upload, now).store)
  {
    var h := PostBook(s, header, verify, req, upload, now);
    if h.response.status == 201 {
      var s' := h.store;
      var n := |s.books|;
      var b := s'.books[n];
      assert s'.books == s.books + [b] by {
        assert s'.books == s'.books[..n] + [s'.books[n]];
      }
      assert s'.users == s.users;
      forall x | x in s'.books ensures HasUser(s', x.owner) && x.id < s'.nextId {
        if x != b {
          assert x in s.books;
        }
      }
      forall i, j | 0 <= i < j < |s'.books| ensures s'.books[i].id != s'.books[j].id {
        if j == n {
          assert s'.books[i] in s.books;
        }
      }
    }
  }

  /** Deleting a book keeps the store valid. */
  lemma DeletePreservesValid(s: Store, header: Option<string>, verify: string -> Option<Id>,
                             id: Id, destroy: string -> bool)
    requires Valid(s)
    ensures Valid(DeleteBookRoute(s, header, verify, id, destroy).handled.store)
  {
    var gate := ProtectRoute(s, header, verify);
    if gate.Proceed? {
      DeleteBookPreservesValid(s, gate.user, id, destroy);
    }
  }

  lemma DeleteBookPreservesValid(s: Store, user: PublicUser, id: Id, destroy: string -> bool)
    requires Valid(s)
    ensures Valid(DeleteBook(s, user, id, destroy).handled.store)
  {
    var found := BookById(s, id);
    if found.Some? && found.value.owner == user.id {
      var rest := Filter(s.books, IdIsNot(id));
      FilterKeepsDistinct(s.books, IdIsNot(id));
      forall b | b in rest ensures b in s.books {
        FilteredFrom(s.books, IdIsNot(id), b);
      }
      ValidAfterDroppingBooks(s, rest);
    }
  }

  /** Keeping only some of the books, with distinct ids, keeps a store valid. */
  lemma ValidAfterDroppingBooks(s: Store, rest: seq<Book>)
    requires Valid(s)
    requires DistinctIds(rest)
    requires forall b :: b in rest ==> b in s.books
    ensures Valid(s.(books := rest))
  {
    var s' := s.(books := rest);
    forall b | b in rest ensures HasUser(s', b.owner) {
      var w :| w in s.users && w.id == b.owner;
      assert w in s'.users;
    }
  }

  /** The token a successful registration hands out, sent back as
      "Bearer <token>", gets the new user through the gate, provided the
      token still verifies to the id it was signed for. */
  lemma RegisteredTokenAuthenticates(s: Store, req: RegisterRequest, sign: Claims -> string,
                                     verify: string -> Option<Id>)
    requires Valid(s)
    requires forall c: Claims :: verify(sign(c)) == Some(c.userId)
    requires forall c: Claims :: sign(c) != ""
    requires Register(s, req, sign).response.status == 201
    ensures var h := Register(s, req, sign);
      ProtectRoute(h.store, Some(BearerPrefix + h.response.body.token), verify) == Proceed(h.response.body.user)
  {
    var h := Register(s, req, sign);
    var u := h.store.users[|s.users|];
    BearerHeaderCarriesToken(h.response.body.token);
    RegisterPreservesValid(s, req, sign);
    UniqueUserById(h.store, u);
  }

  /** Likewise for the token a successful login hands out. */
  lemma LoginTokenAuthenticates(s: Store, req: LoginRequest, matches: (string, string) -> bool,
                                sign: Claims -> string, verify: string -> Option<Id>)
    requires Valid(s)
    requires forall c: Claims :: verify(sign(c)) == Some(c.userId)
    requires forall c: Claims :: sign(c) != ""
    requires Login(s, req, matches, sign).response.status == 200
    ensures var h := Login(s, req, matches, sign);
      ProtectRoute(s, Some(BearerPrefix + h.response.body.token), verify) == Proceed(h.response.body.user)
  {
    var h := Login(s, req, matches, sign);
    var i :| 0 <= i < |s.users| && s.users[i].email == req.email.value &&
             h.response.body == Session(sign(Claims(s.users[i].id, TokenLifetime)), Public(s.users[i]));
    BearerHeaderCarriesToken(h.response.body.token);
    UniqueUserById(s, s.users[i]);
  }

  /** A second registration with an email already registered fails with the
      duplicate-email message, whatever its username. */
  lemma SecondRegisterSameEmailFails(s: Store, first: RegisterRequest, second: RegisterRequest, sign: Claims -> string)
    requires Register(s, first, sign).response.status == 201
    requires second.email == first.email
    requires WellFormed(second)
    ensures Register(Register(s, first, sign).store, second, sign).response == Response(400, Msg(MsgEmailExists))
  {
    var s' := Register(s, first, sign).store;
    assert s'.users[|s.users|] in s'.users;
  }

  /** A second registration with a taken username but a new email fails with
      the duplicate-username message. */
  lemma SecondRegisterSameUsernameFails(s: Store, first: RegisterRequest, second: RegisterRequest, sign: Claims -> string)
    requires Register(s, first, sign).response.status == 201
    requires second.username == first.username
    requires WellFormed(second)
    requires !EmailTaken(Register(s, first, sign).store, second.email.value)
    ensures Register(Register(s, first, sign).store, second, sign).response == Response(400, Msg(MsgUsernameExists))
  {
    var s' := Register(s, first, sign).store;
    assert s'.users[|s.users|] in s'.users;
  }

  /** Logging in with the credentials just registered succeeds for the new
      user, when the password check accepts the stored password. */
  lemma RegisterThenLogin(s: Store, req: RegisterRequest, matches: (string, string) -> bool, sign: Claims -> string)
    requires Valid(s)
    requires Register(s, req, sign).response.status == 201
    requires matches(req.password.value, req.password.value)
    ensures var h := Register(s, req, sign);
      Login(h.store, LoginRequest(req.email, req.password), matches, sign).response ==
        Response(200, h.response.body)
  {
    var h := Register(s, req, sign);
    var u := h.store.users[|s.users|];
    RegisterPreservesValid(s, req, sign);
    UniqueUserByEmail(h.store, u);
  }
}
