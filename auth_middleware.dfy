/**
 * src/middleware/auth.middleware.js: `protect` (token extraction, verification outcome,
 * user lookup) and the `admin` role gate. Token verification is an opaque function.
 */
module AuthMiddleware {
  import opened Wrappers
  import opened Text
  import opened UserModel

  /** What `jwt.verify` yields: the decoded user id, or one of the two error kinds told apart. */
  datatype Verdict = Verified(id: UserId) | Expired | Invalid

  /** The user attached to a request: the document without its password. */
  type RequestUser = map<string, FieldValue>

  /** Either `next()` is called with the request user, or a status and message are sent. */
  datatype Outcome = Next(user: RequestUser) | Deny(code: int, message: string)

  const BearerPrefix: string := "Bearer "
  const NoTokenMessage: string := "Authorization denied: No token provided."
  const UserNotFoundMessage: string := "Authorization denied: User not found."
  const ExpiredMessage: string := "Token has expired. Please log in again."
  const InvalidTokenMessage: string := "Invalid token. Authorization denied."
  const AdminRequiredMessage: string := "Access denied: Admin privileges required."
  const AdminCheckFailedMessage: string := "Server error. Unable to verify admin privileges."

  /** `req.header('Authorization')?.replace('Bearer ', '')` */
  function ExtractToken(header: Option<string>): Option<string> {
    match header
    case None => None
    case Some(h) => Some(ReplaceFirst(h, BearerPrefix, ""))
  }

  /** A `Bearer <token>` header yields exactly `<token>`; a header without the prefix is taken as it is. */
  lemma ExtractTokenShape(token: string, raw: string)
    ensures ExtractToken(Some(BearerPrefix + token)) == Some(token)
    ensures IndexOf(raw, BearerPrefix).None? ==> ExtractToken(Some(raw)) == Some(raw)
  {
    ReplaceLeadingPattern(BearerPrefix, token);
  }

  /**
   * Token present after stripping, and verified to a well-formed user id that is in the
   * collection; the ObjectId cast makes the lookup ignore the case of hex digits.
   */
  predicate Authenticates(header: Option<string>, verify: string -> Verdict, users: seq<UserRecord>) {
    var t := ExtractToken(header);
    && t.Some? && t.value != [] && verify(t.value).Verified?
    && IsValidObjectId(verify(t.value).id) && FindById(users, ToLower(verify(t.value).id)).Some?
  }

  /** `protect`. */
  function Protect(header: Option<string>, verify: string -> Verdict, users: seq<UserRecord>): (r: Outcome)
    ensures r.Next? <==> Authenticates(header, verify, users)
    ensures r.Next? ==> exists i :: 0 <= i < |users| && users[i].id == ToLower(verify(ExtractToken(header).value).id)
                                    && r.user == ToJson(users[i])
    ensures r.Next? ==> "password" !in r.user
    ensures r.Deny? ==> r.code == 401
    ensures ExtractToken(header).None? || ExtractToken(header).value == [] ==> r == Deny(401, NoTokenMessage)
    ensures ExtractToken(header).Some? && ExtractToken(header).value != [] ==>
              var v := verify(ExtractToken(header).value);
              && (v == Expired <==> r == Deny(401, ExpiredMessage))
              && (v == Invalid || (v.Verified? && !IsValidObjectId(v.id)) <==> r == Deny(401, InvalidTokenMessage))
              && (v.Verified? && IsValidObjectId(v.id) && FindById(users, ToLower(v.id)).None? <==>
                    r == Deny(401, UserNotFoundMessage))
  {
    var token := ExtractToken(header);
    if token.None? || token.value == [] then Deny(401, NoTokenMessage)
    else match verify(token.value)
      case Expired => Deny(401, ExpiredMessage)
      case Invalid => Deny(401, InvalidTokenMessage)
      case Verified(id) =>
        // `findById` throws a cast error on a malformed id, which the catch block answers
        if !IsValidObjectId(id) then Deny(401, InvalidTokenMessage)
        else match FindById(users, ToLower(id))
        case None => Deny(401, UserNotFoundMessage)
        case Some(i) => Next(ToJson(users[i]))
  }

  /** `admin`: `next()` iff the request user's role is `admin`; a missing user makes the check throw (500). */
  function AdminGate(user: Option<RequestUser>): (r: Outcome)
    ensures r.Next? <==> user.Some? && "role" in user.value && user.value["role"] == Str(RoleName(Admin))
    ensures r.Next? ==> r.user == user.value
    ensures r.Deny? ==> r.code == (if user.None? then 500 else 403)
  {
    match user
    case None => Deny(500, AdminCheckFailedMessage)
    case Some(u) =>
      if "role" in u && u["role"] == Str(RoleName(Admin)) then Next(u)
      else Deny(403, AdminRequiredMessage)
  }

  /** Behind `protect`, the admin gate lets a request through exactly when its account is an admin. */
  lemma ProtectThenAdmin(header: Option<string>, verify: string -> Verdict, users: seq<UserRecord>)
    requires IdsUnique(users)
    requires Protect(header, verify, users).Next?
    ensures AdminGate(Some(Protect(header, verify, users).user)).Next? <==>
              users[FindById(users, ToLower(verify(ExtractToken(header).value).id)).value].role == Admin
  {
    var i := FindById(users, ToLower(verify(ExtractToken(header).value).id)).value;
    assert Protect(header, verify, users).user == ToJson(users[i]);
    assert ToJson(users[i])["role"] == Str(RoleName(users[i].role));
  }

  /** The parts of an Express request the middleware touches. */
  class Request {
    var user: Option<RequestUser>
    var nextCalls: nat
    var response: Option<(int, string)>

    constructor ()
      ensures user == None && nextCalls == 0 && response == None
    {
      user := None;
      nextCalls := 0;
      response := None;
    }
  }

  /** Runs `protect` on a request: on success sets `req.user` and calls `next` once, otherwise only responds. */
  method ProtectRequest(req: Request, header: Option<string>, verify: string -> Verdict, users: seq<UserRecord>)
    modifies req
    ensures Protect(header, verify, users).Next? ==>
              && req.user == Some(Protect(header, verify, users).user)
              && req.nextCalls == old(req.nextCalls) + 1
              && req.response == old(req.response)
    ensures Protect(header, verify, users).Deny? ==>
              && req.user == old(req.user)
              && req.nextCalls == old(req.nextCalls)
              && req.response == Some((Protect(header, verify, users).code, Protect(header, verify, users).message))
  {
    match Protect(header, verify, users)
    case Next(u) =>
      req.user := Some(u);
      req.nextCalls := req.nextCalls + 1;
    case Deny(code, message) =>
      req.response := Some((code, message));
  }

  /** Runs the `admin` gate on a request: `next` is called once for an admin, never otherwise. */
  method AdminRequest(req: Request)
    modifies req
    ensures AdminGate(old(req.user)).Next? ==>
              req.nextCalls == old(req.nextCalls) + 1 && req.response == old(req.response)
    ensures AdminGate(old(req.user)).Deny? ==>
              && req.nextCalls == old(req.nextCalls)
              && req.response == Some((AdminGate(old(req.user)).code, AdminGate(old(req.user)).message))
    ensures req.user == old(req.user)
  {
    match AdminGate(req.user)
    case Next(_) =>
      req.nextCalls := req.nextCalls + 1;
    case Deny(code, message) =>
      req.response := Some((code, message));
  }
}
