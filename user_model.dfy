/**
 * The user document (src/models/user.model.js): field validators, the setters and
 * pre-save hook that normalise the email, password comparison, `toJSON`, and the
 * collection with its unique indexes.
 */
module UserModel {
  import opened Wrappers
  import opened Text

  type UserId = string

  /** The `role` enum; `User` is the default. */
  datatype Role = Admin | User

  function RoleName(r: Role): string {
    match r
    case Admin => "admin"
    case User => "user"
  }

  datatype UserRecord = UserRecord(
    id: UserId,
    name: string,
    email: string,
    password: string,
    role: Role,
    isLoggedIn: bool,
    isBlocked: bool)

  const MinNameLength: nat := 3
  const MinPasswordLength: nat := 5

  predicate IsAsciiLetter(c: char) {
    'a' <= c <= 'z' || 'A' <= c <= 'Z'
  }

  /** A stored (already trimmed) name: `/^[a-zA-Z\s]+$/` and at least 3 characters. */
  predicate ValidName(n: string) {
    |n| >= MinNameLength && forall i :: 0 <= i < |n| ==> IsAsciiLetter(n[i]) || IsSpace(n[i])
  }

  predicate IsEmailChar(c: char) {
    !IsSpace(c) && c != '@'
  }

  predicate AllEmailChars(s: string) {
    forall i :: 0 <= i < |s| ==> IsEmailChar(s[i])
  }

  /** `/^[^\s@]+@[^\s@]+\.[^\s@]+$/` read as a split of the string into its five parts. */
  ghost predicate EmailPattern(e: string) {
    exists i, k :: 0 < i && i + 1 < k && k + 1 < |e| && e[i] == '@' && e[k] == '.'
                   && AllEmailChars(e[..i]) && AllEmailChars(e[i + 1..k]) && AllEmailChars(e[k + 1..])
  }

  /**
   * The email check as a scan: a single `@` that is not first, no white space, and a dot in
   * the domain that is neither the domain's first nor its last character.
   */
  predicate ValidEmail(e: string) {
    match IndexOfChar(e, '@')
    case None => false
    case Some(i) =>
      && 0 < i
      && NoSpace(e)
      && IndexOfCharFrom(e, '@', i + 1).None?
      && i + 2 < |e|
      && match IndexOfCharFrom(e, '.', i + 2)
         case None => false
         case Some(k) => k + 1 < |e|
  }

  lemma ValidEmailToPattern(e: string)
    requires ValidEmail(e)
    ensures EmailPattern(e)
  {
    var i := IndexOfChar(e, '@').value;
    var k := IndexOfCharFrom(e, '.', i + 2).value;
    assert forall j :: 0 <= j < |e| && j != i ==> IsEmailChar(e[j]);
    assert AllEmailChars(e[..i]);
    assert AllEmailChars(e[i + 1..k]);
    assert AllEmailChars(e[k + 1..]);
  }

  lemma PatternToValidEmail(e: string)
    requires EmailPattern(e)
    ensures ValidEmail(e)
  {
    var i, k :| 0 < i && i + 1 < k && k + 1 < |e| && e[i] == '@' && e[k] == '.'
                && AllEmailChars(e[..i]) && AllEmailChars(e[i + 1..k]) && AllEmailChars(e[k + 1..]);
    forall j | 0 <= j < |e| && j != i ensures IsEmailChar(e[j]) {
      if j < i { assert e[j] == e[..i][j]; }
      else if j < k { assert e[j] == e[i + 1..k][j - i - 1]; }
      else if j > k { assert e[j] == e[k + 1..][j - k - 1]; }
    }
    assert IndexOfChar(e, '@') == Some(i);
    assert IndexOfCharFrom(e, '.', i + 2).Some?;
  }

  /** The scan and the regular expression accept the same strings. */
  lemma ValidEmailIff(e: string)
    ensures ValidEmail(e) <==> EmailPattern(e)
  {
    if ValidEmail(e) { ValidEmailToPattern(e); }
    if EmailPattern(e) { PatternToValidEmail(e); }
  }

  predicate ValidPassword(p: string) {
    |p| >= MinPasswordLength
  }

  /** Everything the schema validates on create. */
  predicate ValidRecord(u: UserRecord) {
    ValidName(u.name) && ValidEmail(u.email) && ValidPassword(u.password)
  }

  /** The `trim` and `lowercase` setters of the email path; they also apply to query values. */
  function NormalizeEmail(e: string): (r: string)
    ensures IsLowerCase(r) && NoSpace(r) == NoSpace(Trim(e))
  {
    LowerKeepsSpace(Trim(e));
    ToLower(Trim(e))
  }

  /** A normalised email is already lower case, so the pre-save hook leaves it as it is. */
  lemma LowerFixesNormalized(e: string)
    ensures ToLower(NormalizeEmail(e)) == NormalizeEmail(e)
  {
    ToLowerIdempotent(Trim(e));
  }

  /** Normalising is idempotent: a stored email is found again by its own value. */
  lemma NormalizeEmailIdempotent(e: string)
    ensures NormalizeEmail(NormalizeEmail(e)) == NormalizeEmail(e)
  {
    var t := Trim(e);
    var l := ToLower(t);
    LowerKeepsSpace(t);
    assert TrimStart(l) == l by {
      if |l| > 0 { assert !IsSpace(t[0]); }
    }
    assert TrimEnd(l) == l by {
      if |l| > 0 { assert !IsSpace(t[|t| - 1]); }
    }
    ToLowerIdempotent(t);
  }

  /** `comparePassword`: the stored password is compared as plain text. */
  function ComparePassword(u: UserRecord, candidate: string): bool {
    u.password == candidate
  }

  datatype FieldValue = Str(s: string) | Flag(b: bool)

  /** `toObject()`: the document as a plain object. */
  function ToObject(u: UserRecord): map<string, FieldValue> {
    map["_id" := Str(u.id), "name" := Str(u.name), "email" := Str(u.email),
        "password" := Str(u.password), "role" := Str(RoleName(u.role)),
        "isLoggedIn" := Flag(u.isLoggedIn), "isBlocked" := Flag(u.isBlocked)]
  }

  /** `toJSON`: the plain object with its `password` key deleted and every other key kept. */
  function ToJson(u: UserRecord): (r: map<string, FieldValue>)
    ensures "password" !in r
    ensures r.Keys == ToObject(u).Keys - {"password"}
    ensures forall k :: k in r ==> r[k] == ToObject(u)[k]
  {
    ToObject(u) - {"password"}
  }

  // ---------------------------------------------------------------------------
  // The users collection
  // ---------------------------------------------------------------------------

  predicate EmailsUnique(users: seq<UserRecord>) {
    forall i, j :: 0 <= i < j < |users| ==> users[i].email != users[j].email
  }

  predicate IdsUnique(users: seq<UserRecord>) {
    forall i, j :: 0 <= i < j < |users| ==> users[i].id != users[j].id
  }

  function FindByEmailFrom(users: seq<UserRecord>, email: string, from: nat): (r: Option<nat>)
    requires from <= |users|
    ensures r.Some? ==> from <= r.value < |users| && users[r.value].email == email
    ensures forall j :: from <= j < |users| && (r.None? || j < r.value) ==> users[j].email != email
    decreases |users| - from
  {
    if from == |users| then None
    else if users[from].email == email then Some(from)
    else FindByEmailFrom(users, email, from + 1)
  }

  /** `findOne({ email })` over a normalised email: the first user holding it. */
  function FindByEmail(users: seq<UserRecord>, email: string): (r: Option<nat>)
    ensures r.Some? ==> r.value < |users| && users[r.value].email == email
    ensures forall j :: 0 <= j < |users| && (r.None? || j < r.value) ==> users[j].email != email
  {
    FindByEmailFrom(users, email, 0)
  }

  function FindByIdFrom(users: seq<UserRecord>, id: UserId, from: nat): (r: Option<nat>)
    requires from <= |users|
    ensures r.Some? ==> from <= r.value < |users| && users[r.value].id == id
    ensures forall j :: from <= j < |users| && (r.None? || j < r.value) ==> users[j].id != id
    decreases |users| - from
  {
    if from == |users| then None
    else if users[from].id == id then Some(from)
    else FindByIdFrom(users, id, from + 1)
  }

  /** `findById(id)`: the position of the user with that id. */
  function FindById(users: seq<UserRecord>, id: UserId): (r: Option<nat>)
    ensures r.Some? ==> r.value < |users| && users[r.value].id == id
    ensures forall j :: 0 <= j < |users| && (r.None? || j < r.value) ==> users[j].id != id
  {
    FindByIdFrom(users, id, 0)
  }

  /** What the unique indexes and the email setter guarantee of the stored users. */
  predicate TableInvariant(users: seq<UserRecord>) {
    && EmailsUnique(users)
    && IdsUnique(users)
    && (forall i :: 0 <= i < |users| ==> IsLowerCase(users[i].email))
  }

  /** Appending a user whose id and email are both new keeps the invariant. */
  lemma InsertKeepsInvariant(users: seq<UserRecord>, rec: UserRecord)
    requires TableInvariant(users) && IsLowerCase(rec.email)
    requires FindById(users, rec.id).None? && FindByEmail(users, rec.email).None?
    ensures TableInvariant(users + [rec])
  {
  }

  /** Removing any one user keeps the invariant. */
  lemma RemoveKeepsInvariant(users: seq<UserRecord>, i: nat)
    requires TableInvariant(users) && i < |users|
    ensures TableInvariant(users[..i] + users[i + 1..])
  {
    var r := users[..i] + users[i + 1..];
    assert forall j :: 0 <= j < |r| ==> r[j] == users[if j < i then j else j + 1];
  }

  /** The record `User.create` stores: setters applied, flags at their defaults. */
  function NewRecord(id: UserId, name: string, email: string, password: string, role: Role): UserRecord {
    UserRecord(id, Trim(name), NormalizeEmail(email), password, role, false, false)
  }

  /** A user document being saved; the pre-save hook rewrites its email in place. */
  class UserDoc {
    const id: UserId
    var name: string
    var email: string
    var password: string
    var role: Role
    var isLoggedIn: bool
    var isBlocked: bool
    var emailModified: bool

    /** `new User({...})`: the `trim`/`lowercase` setters run on assignment. */
    constructor (id: UserId, name: string, email: string, password: string, role: Role)
      ensures Record() == NewRecord(id, name, email, password, role)
      ensures emailModified
    {
      this.id := id;
      this.name := Trim(name);
      this.email := NormalizeEmail(email);
      this.password := password;
      this.role := role;
      isLoggedIn := false;
      isBlocked := false;
      emailModified := true;
    }

    function Record(): UserRecord
      reads this
    {
      UserRecord(id, name, email, password, role, isLoggedIn, isBlocked)
    }

    /** The pre-save hook: lower-cases the email when it was modified. */
    method PreSave()
      modifies this`email
      ensures email == if emailModified then ToLower(old(email)) else old(email)
    {
      if emailModified {
        email := ToLower(email);
      }
    }
  }

  /** The users collection, in insertion order, with its unique `email` and `_id` indexes. */
  class UserTable {
    var users: seq<UserRecord>

    ghost predicate Valid()
      reads this
    {
      TableInvariant(users)
    }

    constructor ()
      ensures Valid() && users == []
    {
      users := [];
    }

    /**
     * `User.create(...)`: validate, run the pre-save hook, and insert unless a unique index
     * (id or email) is already taken. A failed create leaves the collection as it was.
     */
    method Create(id: UserId, name: string, email: string, password: string, role: Role) returns (ok: bool)
      requires Valid()
      modifies this
      ensures Valid()
      ensures ok <==> && ValidRecord(NewRecord(id, name, email, password, role))
                      && FindById(old(users), id).None?
                      && FindByEmail(old(users), NormalizeEmail(email)).None?
      ensures users == if ok then old(users) + [NewRecord(id, name, email, password, role)] else old(users)
    {
      ghost var expected := NewRecord(id, name, email, password, role);
      var doc := new UserDoc(id, name, email, password, role);
      assert doc.Record() == expected;
      if !ValidRecord(doc.Record()) {
        return false;
      }
      LowerFixesNormalized(email);
      doc.PreSave();
      var rec := doc.Record();
      assert rec == expected;
      assert IsLowerCase(rec.email) by {
        ToLowerIdempotent(Trim(email));
      }
      if FindById(users, id).Some? || FindByEmail(users, rec.email).Some? {
        return false;
      }
      InsertKeepsInvariant(users, rec);
      users := users + [rec];
      ok := true;
    }

    /** Removes the user with id `id`, if any, keeping the others in order. */
    method Remove(id: UserId) returns (removed: Option<UserRecord>)
      requires Valid()
      modifies this
      ensures Valid()
      ensures removed.None? <==> FindById(old(users), id).None?
      ensures removed.None? ==> users == old(users)
      ensures removed.Some? ==>
                var i := FindById(old(users), id).value;
                removed.value == old(users)[i] && users == old(users)[..i] + old(users)[i + 1..]
    {
      match FindById(users, id)
      case None =>
        removed := None;
      case Some(i) =>
        removed := Some(users[i]);
        RemoveKeepsInvariant(users, i);
        users := users[..i] + users[i + 1..];
    }
  }
}
