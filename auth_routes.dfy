/**
 * The decision logic of src/routes/auth.routes.js over the users collection.
 * A request string that is absent is modelled as "" (both are falsy in every check here).
 */
module AuthRoutes {
  import opened Wrappers
  import opened Text
  import opened UserModel

  /** The payload of an issued token; signing itself is not modelled. */
  datatype Token = Token(id: UserId, role: Option<Role>)

  /** An HTTP status and, on success, the token sent back. */
  datatype Reply = Reply(code: int, token: Option<Token>)

  predicate AnyMissing(name: string, email: string, password: string) {
    name == [] || email == [] || password == []
  }

  /**
   * The shared body of register and create-admin: reject missing fields (400) and a
   * taken email (400); otherwise `User.create`, whose validation or index failure is a 500.
   */
  method SignUp(t: UserTable, name: string, email: string, password: string, newId: UserId, role: Role)
    returns (code: int)
    requires t.Valid()
    modifies t
    ensures t.Valid()
    ensures AnyMissing(name, email, password) ==> code == 400
    ensures !AnyMissing(name, email, password) && FindByEmail(old(t.users), NormalizeEmail(email)).Some? ==> code == 400
    ensures code == 201 <==> && !AnyMissing(name, email, password)
                             && FindByEmail(old(t.users), NormalizeEmail(email)).None?
                             && ValidRecord(NewRecord(newId, name, email, password, role))
                             && FindById(old(t.users), newId).None?
    ensures code == 400 || code == 201 || code == 500
    ensures t.users == if code == 201 then old(t.users) + [NewRecord(newId, name, email, password, role)] else old(t.users)
  {
    if AnyMissing(name, email, password) {
      return 400;
    }
    if FindByEmail(t.users, NormalizeEmail(email)).Some? {
      return 400;
    }
    var ok := t.Create(newId, name, email, password, role);
    code := if ok then 201 else 500;
  }

  /** POST /register: a new `user`-role account and a token for it. */
  method Register(t: UserTable, name: string, email: string, password: string, newId: UserId)
    returns (r: Reply)
    requires t.Valid()
    modifies t
    ensures t.Valid()
    ensures AnyMissing(name, email, password) ==> r == Reply(400, None)
    ensures !AnyMissing(name, email, password) && FindByEmail(old(t.users), NormalizeEmail(email)).Some? ==> r == Reply(400, None)
    ensures r.code == 201 <==> && !AnyMissing(name, email, password)
                               && FindByEmail(old(t.users), NormalizeEmail(email)).None?
                               && ValidRecord(NewRecord(newId, name, email, password, User))
                               && FindById(old(t.users), newId).None?
    ensures r.code == 201 ==> r.token == Some(Token(newId, None))
    ensures r.code != 201 ==> r.token == None && (r.code == 400 || r.code == 500)
    ensures t.users == if r.code == 201 then old(t.users) + [NewRecord(newId, name, email, password, User)] else old(t.users)
  {
    var code := SignUp(t, name, email, password, newId, User);
    r := Reply(code, if code == 201 then Some(Token(newId, None)) else None);
  }

  /** POST /create-admin: as register, but the account gets role `admin` and the token names it. */
  method CreateAdmin(t: UserTable, name: string, email: string, password: string, newId: UserId)
    returns (r: Reply)
    requires t.Valid()
    modifies t
    ensures t.Valid()
    ensures AnyMissing(name, email, password) ==> r == Reply(400, None)
    ensures !AnyMissing(name, email, password) && FindByEmail(old(t.users), NormalizeEmail(email)).Some? ==> r == Reply(400, None)
    ensures r.code == 201 <==> && !AnyMissing(name, email, password)
                               && FindByEmail(old(t.users), NormalizeEmail(email)).None?
                               && ValidRecord(NewRecord(newId, name, email, password, Admin))
                               && FindById(old(t.users), newId).None?
    ensures r.code == 201 ==> r.token == Some(Token(newId, Some(Admin)))
    ensures r.code != 201 ==> r.token == None && (r.code == 400 || r.code == 500)
    ensures t.users == if r.code == 201 then old(t.users) + [NewRecord(newId, name, email, password, Admin)] else old(t.users)
  {
    var code := SignUp(t, name, email, password, newId, Admin);
    r := Reply(code, if code == 201 then Some(Token(newId, Some(Admin))) else None);
  }

  /** POST /login. */
  function Login(users: seq<UserRecord>, email: string, password: string): (r: Reply)
    ensures r.code == 400 <==> email == [] || password == []
    ensures r.code == 200 || r.code == 400 || r.code == 401
    ensures r.code == 200 <==> r.token.Some?
  {
    if email == [] || password == [] then Reply(400, None)
    else match FindByEmail(users, NormalizeEmail(email))
      case None => Reply(401, None)
      case Some(i) =>
        if users[i].password != password then Reply(401, None)
        else Reply(200, Some(Token(users[i].id, None)))
  }

  /**
   * In a collection with unique emails, login succeeds exactly when some user holds the
   * (normalised) email and exactly the given password, and the token names that user.
   */
  lemma LoginIff(users: seq<UserRecord>, email: string, password: string)
    requires EmailsUnique(users)
    ensures Login(users, email, password).code == 200 <==>
              email != [] && password != [] &&
              exists i :: 0 <= i < |users| && users[i].email == NormalizeEmail(email) && ComparePassword(users[i], password)
    ensures forall i :: 0 <= i < |users| && users[i].email == NormalizeEmail(email) && ComparePassword(users[i], password)
                        && email != [] && password != [] ==>
              Login(users, email, password) == Reply(200, Some(Token(users[i].id, None)))
  {
    if email != [] && password != [] {
      var f := FindByEmail(users, NormalizeEmail(email));
      if f.Some? {
        assert forall i :: 0 <= i < |users| && users[i].email == NormalizeEmail(email) ==> i == f.value;
      }
    }
  }

  /** Registering and then logging in with the same credentials succeeds for the new account. */
  lemma LoginAfterRegister(users: seq<UserRecord>, name: string, email: string, password: string, newId: UserId)
    requires FindByEmail(users, NormalizeEmail(email)).None?
    requires email != [] && password != []
    ensures Login(users + [NewRecord(newId, name, email, password, User)], email, password)
            == Reply(200, Some(Token(newId, None)))
  {
    var rec := NewRecord(newId, name, email, password, User);
    FindByEmailAppend(users, rec, NormalizeEmail(email));
  }

  /** A new email is found at the position where its record was appended. */
  lemma FindByEmailAppend(users: seq<UserRecord>, rec: UserRecord, e: string)
    requires FindByEmail(users, e).None? && rec.email == e
    ensures FindByEmail(users + [rec], e) == Some(|users|)
  {
    var after := users + [rec];
    assert forall j :: 0 <= j < |users| ==> after[j] == users[j];
    assert after[|users|] == rec;
  }

  /** POST /admin-login: also refuses an account whose role is not `admin`. */
  function AdminLogin(users: seq<UserRecord>, email: string, password: string): (r: Reply)
    ensures r.code == 400 <==> email == [] || password == []
    ensures r.code == 200 || r.code == 400 || r.code == 401
    ensures r.code == 200 <==> r.token.Some?
  {
    if email == [] || password == [] then Reply(400, None)
    else match FindByEmail(users, NormalizeEmail(email))
      case None => Reply(401, None)
      case Some(i) =>
        if users[i].role != Admin || users[i].password != password then Reply(401, None)
        else Reply(200, Some(Token(users[i].id, Some(Admin))))
  }

  /** Admin login succeeds exactly when the account exists, is an admin, and the password matches. */
  lemma AdminLoginIff(users: seq<UserRecord>, email: string, password: string)
    requires EmailsUnique(users)
    ensures AdminLogin(users, email, password).code == 200 <==>
              email != [] && password != [] &&
              exists i :: 0 <= i < |users| && users[i].email == NormalizeEmail(email)
                          && users[i].role == Admin && ComparePassword(users[i], password)
    ensures AdminLogin(users, email, password).code == 200 ==>
              Login(users, email, password).code == 200
  {
    if email != [] && password != [] {
      var f := FindByEmail(users, NormalizeEmail(email));
      if f.Some? {
        assert forall i :: 0 <= i < |users| && users[i].email == NormalizeEmail(email) ==> i == f.value;
      }
    }
  }

  /** The `updatedFields` object: which fields update-user will set. */
  datatype UserPatch = UserPatch(name: Option<string>, email: Option<string>, password: Option<string>)

  /** Builds the patch one field at a time, taking exactly the non-empty inputs. */
  method BuildPatch(name: string, email: string, password: string) returns (p: UserPatch)
    ensures p.name.Some? <==> name != []
    ensures p.email.Some? <==> email != []
    ensures p.password.Some? <==> password != []
    ensures p.name.Some? ==> p.name.value == name
    ensures p.email.Some? ==> p.email.value == email
    ensures p.password.Some? ==> p.password.value == password
  {
    p := UserPatch(None, None, None);
    if name != [] {
      p := p.(name := Some(name));
    }
    if email != [] {
      p := p.(email := Some(email));
    }
    if password != [] {
      p := p.(password := Some(password));
    }
  }

  /** The record after `findByIdAndUpdate`: setters run on the patched fields, validators do not. */
  function ApplyPatch(u: UserRecord, p: UserPatch): (r: UserRecord)
    ensures r.id == u.id && r.role == u.role && r.isLoggedIn == u.isLoggedIn && r.isBlocked == u.isBlocked
    ensures p.name.None? ==> r.name == u.name
    ensures p.email.None? ==> r.email == u.email
    ensures p.password.None? ==> r.password == u.password
    ensures p.email.Some? ==> IsLowerCase(r.email)
  {
    UserRecord(
      u.id,
      if p.name.Some? then Trim(p.name.value) else u.name,
      if p.email.Some? then NormalizeEmail(p.email.value) else u.email,
      if p.password.Some? then p.password.value else u.password,
      u.role, u.isLoggedIn, u.isBlocked)
  }

  lemma ReplaceKeepsInvariant(users: seq<UserRecord>, i: nat, rec: UserRecord)
    requires TableInvariant(users) && i < |users|
    requires rec.id == users[i].id && IsLowerCase(rec.email)
    requires forall j :: 0 <= j < |users| && j != i ==> users[j].email != rec.email
    ensures TableInvariant(users[i := rec])
  {
  }

  /** Some user other than the one at position `i` holds `e`. */
  predicate EmailHeldByOther(users: seq<UserRecord>, i: nat, e: string) {
    exists j :: 0 <= j < |users| && j != i && users[j].email == e
  }

  /**
   * PUT /update-user for the account `target`. The route takes the id from a field that
   * the authentication middleware does not set, so `target` is an opaque input here.
   */
  method UpdateUser(t: UserTable, target: UserId, name: string, email: string, password: string)
    returns (code: int, updated: Option<UserRecord>)
    requires t.Valid()
    modifies t
    ensures t.Valid()
    ensures code == 400 <==> name == [] && email == [] && password == []
    ensures code == 400 ==> t.users == old(t.users) && updated == None
    ensures code != 400 && FindById(old(t.users), target).None? ==>
              code == 200 && updated == None && t.users == old(t.users)
    ensures code == 200 && updated.Some? ==>
              var i := FindById(old(t.users), target).value;
              && updated.value.id == target
              && t.users == old(t.users)[i := updated.value]
              && updated.value.name == (if name != [] then Trim(name) else old(t.users)[i].name)
              && updated.value.email == (if email != [] then NormalizeEmail(email) else old(t.users)[i].email)
              && updated.value.password == (if password != [] then password else old(t.users)[i].password)
              && updated.value.role == old(t.users)[i].role
              && updated.value.isLoggedIn == old(t.users)[i].isLoggedIn
              && updated.value.isBlocked == old(t.users)[i].isBlocked
    ensures code == 500 ==> email != [] && t.users == old(t.users) && updated == None
    ensures code == 200 || code == 400 || code == 500
    ensures FindById(old(t.users), target).Some? && code != 400 ==>
              (code == 500 <==>
                 email != [] &&
                 EmailHeldByOther(old(t.users), FindById(old(t.users), target).value, NormalizeEmail(email)))
    ensures FindById(old(t.users), target).Some? && code == 200 ==> updated.Some?
  {
    if name == [] && email == [] && password == [] {
      return 400, None;
    }
    var p := BuildPatch(name, email, password);
    match FindById(t.users, target)
    case None =>
      return 200, None;
    case Some(i) =>
      var rec := ApplyPatch(t.users[i], p);
      assert email != [] ==> rec.email == NormalizeEmail(email);
      assert && rec.id == target
             && rec.name == (if name != [] then Trim(name) else t.users[i].name)
             && rec.email == (if email != [] then NormalizeEmail(email) else t.users[i].email)
             && rec.password == (if password != [] then password else t.users[i].password)
             && rec.role == t.users[i].role
             && rec.isLoggedIn == t.users[i].isLoggedIn && rec.isBlocked == t.users[i].isBlocked;
      var holder := FindByEmail(t.users, rec.email);
      if holder.Some? && holder.value != i {
        // the unique email index refuses the write
        assert t.users[holder.value].email == NormalizeEmail(email);
        return 500, None;
      }
      assert forall j :: 0 <= j < |t.users| && j != i ==> t.users[j].email != rec.email by {
        if holder.Some? {
          assert forall j :: 0 <= j < |t.users| && t.users[j].email == rec.email ==> j == holder.value;
        }
      }
      assert !EmailHeldByOther(t.users, i, rec.email);
      ReplaceKeepsInvariant(t.users, i, rec);
      t.users := t.users[i := rec];
      return 200, Some(rec);
  }
}
