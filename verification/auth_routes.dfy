/** The `/register` and `/login` handlers (src/routes/authRoutes.js). Token
    signing is the `sign` oracle; the password check of the user schema is
    the `matches(stored, candidate)` oracle. */
module AuthRoutes {
  import opened Wrappers
  import opened Model
  import opened Http

  const TokenLifetime := "15d"
  const AvatarBase := "https://api.dicebear.com/7.x/avataaars/svg?seed="

  const MsgFillAll := "Please fill in all fields."
  const MsgPasswordShort := "Password must be at least 6 characters"
  const MsgUsernameShort := "Username must be at least 3 characters"
  const MsgEmailExists := "Email already exists.."
  const MsgUsernameExists := "Username already exists.."
  const MsgCredentialsRequired := "Email and password are required.."
  /** The unknown-email message, spelled as the handler spells it. */
  const MsgUnknownEmail := "Invalid Credentails.."
  const MsgWrongPassword := "Invalid Credentials.."

  const MinPassword := 6
  const MinUsername := 3

  datatype RegisterRequest = RegisterRequest(email: Option<string>, username: Option<string>, password: Option<string>)
  datatype LoginRequest = LoginRequest(email: Option<string>, password: Option<string>)

  /** `generateToken`: a token signed over `{userId}` that expires in 15 days. */
  function GenerateToken(sign: Claims -> string, id: Id): string {
    sign(Claims(id, TokenLifetime))
  }

  /** The generated avatar: the DiceBear URL seeded with the username. */
  function AvatarUrl(username: string): (url: string)
    ensures |url| == |AvatarBase| + |username|
    ensures url[..|AvatarBase|] == AvatarBase && url[|AvatarBase|..] == username
  {
    AvatarBase + username
  }

  /** Different usernames never share an avatar URL. */
  lemma AvatarUrlInjective(a: string, b: string)
    ensures AvatarUrl(a) == AvatarUrl(b) <==> a == b
  {
    if AvatarUrl(a) == AvatarUrl(b) {
      assert a == AvatarUrl(a)[|AvatarBase|..];
    }
  }

  function SessionReply(s: Store, status: nat, u: User, sign: Claims -> string): Handled {
    Handled(s, Response(status, Session(GenerateToken(sign, u.id), Public(u))))
  }

  ghost predicate AllFilled(req: RegisterRequest) {
    Filled(req.email) && Filled(req.username) && Filled(req.password)
  }

  /** The checks that do not consult the store pass. */
  ghost predicate WellFormed(req: RegisterRequest) {
    && AllFilled(req)
    && |req.password.value| >= MinPassword
    && |req.username.value| >= MinUsername
  }

  /** Every check of the registration cascade passes. */
  ghost predicate RegisterAccepted(s: Store, req: RegisterRequest) {
    && WellFormed(req)
    && !EmailTaken(s, req.email.value)
    && !UsernameTaken(s, req.username.value)
  }

  /** `/register`. The checks run in order and the first that fails decides
      the 400 message; a rejected request leaves the store as it was. On
      success exactly one user is appended, under a fresh id, and its public
      fields come back with a token for it. */
  function Register(s: Store, req: RegisterRequest, sign: Claims -> string): (h: Handled)
    ensures h.response.status == 201 <==> RegisterAccepted(s, req)
    ensures h.response.status != 201 ==> h.store == s && h.response.status == 400
    ensures !AllFilled(req) ==> h.response.body == Msg(MsgFillAll)
    ensures AllFilled(req) && |req.password.value| < MinPassword ==>
              h.response.body == Msg(MsgPasswordShort)
    ensures AllFilled(req) && |req.password.value| >= MinPassword && |req.username.value| < MinUsername ==>
              h.response.body == Msg(MsgUsernameShort)
    ensures WellFormed(req) && EmailTaken(s, req.email.value) ==>
              h.response.body == Msg(MsgEmailExists)
    ensures WellFormed(req) && !EmailTaken(s, req.email.value) && UsernameTaken(s, req.username.value) ==>
              h.response.body == Msg(MsgUsernameExists)
    ensures h.response.status == 201 ==>
              && h.store.books == s.books
              && h.store.nextId == s.nextId + 1
              && |h.store.users| == |s.users| + 1
              && h.store.users[..|s.users|] == s.users
              && var u := h.store.users[|s.users|];
                 && u.id == s.nextId
                 && Some(u.email) == req.email
                 && Some(u.username) == req.username
                 && Some(u.password) == req.password
                 && u.profileImage == AvatarUrl(u.username)
                 && h.response.body == Session(sign(Claims(u.id, TokenLifetime)), Public(u))
  {
    if !Filled(req.username) || !Filled(req.email) || !Filled(req.password) then
      Reply(s, 400, MsgFillAll)
    else
      var email, username, password := req.email.value, req.username.value, req.password.value;
      if |password| < MinPassword then Reply(s, 400, MsgPasswordShort)
      else if |username| < MinUsername then Reply(s, 400, MsgUsernameShort)
      else if UserByEmail(s, email).Some? then Reply(s, 400, MsgEmailExists)
      else if UserByUsername(s, username).Some? then Reply(s, 400, MsgUsernameExists)
      else
        var u := User(s.nextId, email, username, password, AvatarUrl(username));
        var s' := s.(users := s.users + [u], nextId := s.nextId + 1);
        SessionReply(s', 201, u, sign)
  }

  /** `/login`. It never changes the store. A missing field, an unknown
      email and a wrong password are all 400s, the last two with messages
      that differ only by a transposed letter; success is a 200 carrying the
      public fields of the first user with that email and a token for it. */
  function Login(s: Store, req: LoginRequest, matches: (string, string) -> bool, sign: Claims -> string): (h: Handled)
    ensures h.store == s
    ensures h.response.status in {200, 400}
    ensures h.response.body == Msg(MsgCredentialsRequired) <==> !(Filled(req.email) && Filled(req.password))
    ensures Filled(req.email) && Filled(req.password) && !EmailTaken(s, req.email.value) ==>
              h.response.body == Msg(MsgUnknownEmail)
    ensures h.response.status == 200 ==>
              Filled(req.email) && Filled(req.password) &&
              exists i :: 0 <= i < |s.users| && s.users[i].email == req.email.value &&
                          (forall j :: 0 <= j < i ==> s.users[j].email != req.email.value) &&
                          matches(s.users[i].password, req.password.value) &&
                          h.response.body == Session(sign(Claims(s.users[i].id, TokenLifetime)), Public(s.users[i]))
    ensures Filled(req.email) && Filled(req.password) && UserByEmail(s, req.email.value).Some? ==>
              (h.response.status == 200 <==>
                 matches(UserByEmail(s, req.email.value).value.password, req.password.value))
    ensures Filled(req.email) && Filled(req.password) && UserByEmail(s, req.email.value).Some? &&
            !matches(UserByEmail(s, req.email.value).value.password, req.password.value) ==>
              h.response.body == Msg(MsgWrongPassword)
    ensures h.response.status == 400 && h.response.body != Msg(MsgCredentialsRequired) &&
            h.response.body != Msg(MsgUnknownEmail) ==>
              h.response.body == Msg(MsgWrongPassword) &&
              UserByEmail(s, req.email.value).Some? &&
              !matches(UserByEmail(s, req.email.value).value.password, req.password.value)
  {
    if !Filled(req.email) || !Filled(req.password) then Reply(s, 400, MsgCredentialsRequired)
    else
      match UserByEmail(s, req.email.value)
      case None => Reply(s, 400, MsgUnknownEmail)
      case Some(u) =>
        if !matches(u.password, req.password.value) then Reply(s, 400, MsgWrongPassword)
        else SessionReply(s, 200, u, sign)
  }

  /** The two credential failures share a status but not a message. */
  lemma CredentialFailuresDiffer()
    ensures MsgUnknownEmail != MsgWrongPassword
  {
    assert MsgUnknownEmail[16] != MsgWrongPassword[16];
  }
}
