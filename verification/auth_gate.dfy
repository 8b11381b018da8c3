/** `protectRoute` (src/middleware/auth.middleware.js): the check every book
    route passes first. The token signature check is the `verify` oracle,
    which yields the token's user id or nothing. */
module AuthGate {
  import opened Wrappers
  import opened Text
  import opened Model

  const BearerPrefix := "Bearer "
  const MsgNoToken := "No Authentication token, Access Denied.."
  const MsgTokenNotValid := "Token is not valid.."
  const MsgTokenInvalid := "Token is invalid.."

  /** A 401 response with `message`, or the authenticated user (stored user
      without its password) handed on to the route. */
  datatype GateOutcome = Reject401(message: string) | Proceed(user: PublicUser)

  /** The token string: the header with its first "Bearer " removed. An
      absent header has no token string at all. */
  function TokenOf(header: Option<string>): (t: Option<string>)
    ensures t.None? <==> header.None?
    ensures header.Some? && !Contains(header.value, BearerPrefix) ==> t == header
    ensures header.Some? && |BearerPrefix| <= |header.value| &&
            header.value[..|BearerPrefix|] == BearerPrefix ==>
              t == Some(header.value[|BearerPrefix|..])
  {
    match header
    case None => None
    case Some(h) =>
      if |BearerPrefix| <= |h| && h[..|BearerPrefix|] == BearerPrefix then
        assert h == BearerPrefix + h[|BearerPrefix|..];
        ReplaceFirstOfPrefix(BearerPrefix, h[|BearerPrefix|..]);
        Some(ReplaceFirst(h, BearerPrefix, ""))
      else Some(ReplaceFirst(h, BearerPrefix, ""))
  }

  /** The gate. An absent header makes `.replace` throw, and the catch-all
      answers "Token is not valid..", so only a header that is present but
      yields an empty token gets the "No Authentication token" message. */
  function ProtectRoute(s: Store, header: Option<string>, verify: string -> Option<Id>): (o: GateOutcome)
    ensures header.None? ==> o == Reject401(MsgTokenNotValid)
    ensures header.Some? && TokenOf(header).value == "" ==> o == Reject401(MsgNoToken)
    ensures header.Some? && TokenOf(header).value != "" && verify(TokenOf(header).value).None? ==>
              o == Reject401(MsgTokenNotValid)
    ensures header.Some? && TokenOf(header).value != "" && verify(TokenOf(header).value).Some? &&
            !HasUser(s, verify(TokenOf(header).value).value) ==>
              o == Reject401(MsgTokenInvalid)
    ensures o.Proceed? <==>
              header.Some? && TokenOf(header).value != "" &&
              verify(TokenOf(header).value).Some? &&
              HasUser(s, verify(TokenOf(header).value).value)
    ensures o.Proceed? ==> exists u :: u in s.users && u.id == verify(TokenOf(header).value).value &&
                                       o.user == Public(u)
    ensures o.Reject401? ==> o.message in {MsgNoToken, MsgTokenNotValid, MsgTokenInvalid}
  {
    match TokenOf(header)
    case None => Reject401(MsgTokenNotValid)
    case Some(token) =>
      if token == "" then Reject401(MsgNoToken)
      else
        match verify(token)
        case None => Reject401(MsgTokenNotValid)
        case Some(id) =>
          match UserById(s, id)
          case None => Reject401(MsgTokenInvalid)
          case Some(u) => Proceed(Public(u))
  }

  /** A well-formed header "Bearer <token>" carries exactly <token>. */
  lemma BearerHeaderCarriesToken(token: string)
    ensures TokenOf(Some(BearerPrefix + token)) == Some(token)
  {
    ReplaceFirstOfPrefix(BearerPrefix, token);
  }

  /** The prefix is removed wherever it first occurs, not only at the start:
      text `x` in front of the first "Bearer " stays in the token. */
  lemma BearerRemovedAfter(x: string, t: string)
    requires forall j: nat :: j < |x| ==> !MatchesAt(x + BearerPrefix + t, BearerPrefix, j)
    ensures TokenOf(Some(x + BearerPrefix + t)) == Some(x + t)
  {
    var h := x + BearerPrefix + t;
    assert h[|x|..|x| + |BearerPrefix|] == BearerPrefix;
    assert FirstMatch(h, BearerPrefix, |x|);
    assert h[..|x|] == x && h[|x| + |BearerPrefix|..] == t;
    assert ReplaceFirst(h, BearerPrefix, "") == x + t;
  }

  /** An instance: "xBearer t" yields "xt". */
  lemma BearerRemovedAnywhere()
    ensures TokenOf(Some("xBearer t")) == Some("xt")
  {
    assert "xBearer t" == "x" + BearerPrefix + "t";
    assert !MatchesAt("xBearer t", BearerPrefix, 0) by { assert "xBearer t"[0] != BearerPrefix[0]; }
    BearerRemovedAfter("x", "t");
    assert "x" + "t" == "xt";
  }

  /** Only the first occurrence is removed: "Bearer Bearer t" yields "Bearer t". */
  lemma OnlyFirstBearerRemoved(token: string)
    ensures TokenOf(Some(BearerPrefix + BearerPrefix + token)) == Some(BearerPrefix + token)
  {
    ReplaceFirstKeepsLaterMatches(BearerPrefix, token);
  }

  /** The header "Bearer " alone is present but carries the empty token. */
  lemma BareBearerHasNoToken(s: Store, verify: string -> Option<Id>)
    ensures ProtectRoute(s, Some(BearerPrefix), verify) == Reject401(MsgNoToken)
  {
    assert BearerPrefix == BearerPrefix + "";
    BearerHeaderCarriesToken("");
  }
}
