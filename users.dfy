/**
 * The user routes (server/routes/users.ts): create, update, delete, admin
 * login and listing over the user collection. The collection is a sequence
 * in creation order; the password hash is a function given to the directory
 * when it is made.
 */
module UsersRoutes {
  import opened Wrappers
  import opened Text
  import opened UserSchema

  /**
   * The failures of the user routes. `SchemaRejected` (the `required`
   * validator refusing an empty trimmed name or email on insert) and
   * `DuplicateKey` (the unique email index refusing an update) are raised by
   * the store rather than answered by the handler.
   */
  datatype UserError = MissingFields | EmailExists | NotFound | InvalidCredentials | SchemaRejected | DuplicateKey

  /** The status each answered error is sent with; `None` for the errors the handlers do not catch. */
  function HttpStatus(e: UserError): (status: Option<nat>)
    ensures status.None? <==> e == SchemaRejected || e == DuplicateKey
    ensures status == Some(409) <==> e == EmailExists
    ensures status == Some(401) <==> e == InvalidCredentials
    ensures status == Some(400) <==> e == MissingFields
    ensures status == Some(404) <==> e == NotFound
  {
    match e
    case MissingFields => Some(400)
    case EmailExists => Some(409)
    case NotFound => Some(404)
    case InvalidCredentials => Some(401)
    case SchemaRejected => None
    case DuplicateKey => None
  }

  datatype Reply<T> = Ok(value: T) | Fail(error: UserError)

  /** A request body; `userType` is `None` when `type` is absent or not a string. */
  datatype UserBody = UserBody(teamName: Option<string>, email: Option<string>, password: Option<string>, userType: Option<string>)

  /** JavaScript truthiness of an optional string field. */
  predicate Truthy(v: Option<string>) {
    v.Some? && v.value != ""
  }

  /** `findOne({ email: key })`: the position of the user stored under that email. */
  function EmailOwner(users: seq<UserRecord>, key: string): (r: Option<nat>)
    ensures r.Some? ==> r.value < |users| && users[r.value].email == key
    ensures r.None? <==> forall i :: 0 <= i < |users| ==> users[i].email != key
  {
    if users == [] then None
    else if users[0].email == key then Some(0)
    else match EmailOwner(users[1..], key)
      case None => None
      case Some(k) => Some(k + 1)
  }

  /** `findById(id)`: the position of the user with that id. */
  function IdOwner(users: seq<UserRecord>, id: UserId): (r: Option<nat>)
    ensures r.Some? ==> r.value < |users| && users[r.value].id == id
    ensures r.None? <==> forall i :: 0 <= i < |users| ==> users[i].id != id
    ensures r.Some? ==> forall j :: 0 <= j < r.value ==> users[j].id != id
  {
    if users == [] then None
    else if users[0].id == id then Some(0)
    else match IdOwner(users[1..], id)
      case None => None
      case Some(k) => Some(k + 1)
  }

  // ----- createUser -----

  /**
   * `createUser`: all three fields must be truthy, the normalised email must
   * be free, and the stored record has the trimmed name, the normalised email,
   * the hashed password and the mapped type.
   */
  function CreateOutcome(users: seq<UserRecord>, id: UserId, hash: string -> string, body: UserBody): (r: Reply<UserRecord>)
    ensures r == Fail(MissingFields) <==> !Truthy(body.teamName) || !Truthy(body.email) || !Truthy(body.password)
    ensures r == Fail(EmailExists) <==>
      Truthy(body.teamName) && Truthy(body.email) && Truthy(body.password)
      && exists i :: 0 <= i < |users| && users[i].email == StoredEmail(body.email.value)
    ensures r == Fail(SchemaRejected) <==>
      && Truthy(body.teamName) && Truthy(body.email) && Truthy(body.password)
      && (forall i :: 0 <= i < |users| ==> users[i].email != StoredEmail(body.email.value))
      && (Trim(body.teamName.value) == "" || StoredEmail(body.email.value) == "")
    ensures r.Fail? ==> r.error == MissingFields || r.error == EmailExists || r.error == SchemaRejected
    ensures r.Ok? ==>
      && r.value == UserRecord(id, Trim(body.teamName.value), StoredEmail(body.email.value), hash(body.password.value), TypeOf(body.userType))
      && r.value.teamName != "" && r.value.email != ""
      && forall i :: 0 <= i < |users| ==> users[i].email != r.value.email
  {
    if !Truthy(body.teamName) || !Truthy(body.email) || !Truthy(body.password) then Fail(MissingFields)
    else
      LookupFindsStored(body.email.value);
      if EmailOwner(users, LookupKey(body.email.value)).Some? then Fail(EmailExists)
      else
        var rec := UserRecord(id, Trim(body.teamName.value), StoredEmail(body.email.value),
                              hash(body.password.value), TypeOf(body.userType));
        if rec.teamName == "" || rec.email == "" then Fail(SchemaRejected)
        else Ok(rec)
  }

  /** A request with every field present, a free email and a non-blank name and email is created. */
  lemma CreateSucceeds(users: seq<UserRecord>, id: UserId, hash: string -> string, body: UserBody)
    requires Truthy(body.teamName) && Truthy(body.email) && Truthy(body.password)
    requires forall i :: 0 <= i < |users| ==> users[i].email != StoredEmail(body.email.value)
    requires Trim(body.teamName.value) != "" && StoredEmail(body.email.value) != ""
    ensures CreateOutcome(users, id, hash, body)
      == Ok(UserRecord(id, Trim(body.teamName.value), StoredEmail(body.email.value), hash(body.password.value), TypeOf(body.userType)))
  {
  }

  /** A created user keeps the directory valid once appended with the next id. */
  lemma CreateKeepsValid(users: seq<UserRecord>, nextId: UserId, hash: string -> string, body: UserBody)
    requires ValidUsers(users, nextId)
    ensures var r := CreateOutcome(users, nextId, hash, body);
      r.Ok? ==> ValidUsers(users + [r.value], nextId + 1)
  {
    var r := CreateOutcome(users, nextId, hash, body);
    if r.Ok? {
      var us := users + [r.value];
      forall i, j | 0 <= i < j < |us| ensures us[i].email != us[j].email && us[i].id < us[j].id {
        if j < |users| {
          assert us[i] == users[i] && us[j] == users[j];
        } else {
          assert us[i] == users[i];
        }
      }
    }
  }

  /** Creating the same user twice fails the second time: the email is taken. */
  lemma CreateTwiceFails(users: seq<UserRecord>, id: UserId, id2: UserId, hash: string -> string, body: UserBody)
    requires CreateOutcome(users, id, hash, body).Ok?
    ensures CreateOutcome(users + [CreateOutcome(users, id, hash, body).value], id2, hash, body) == Fail(EmailExists)
  {
    var u := CreateOutcome(users, id, hash, body).value;
    assert (users + [u])[|users|] == u;
  }

  // ----- updateUser -----

  /** Some user other than the one at position `k` is stored under `email`: the unique index refuses the update. */
  predicate EmailClash(users: seq<UserRecord>, k: nat, email: string) {
    exists j :: 0 <= j < |users| && j != k && users[j].email == email
  }

  /**
   * The `update` object applied to a user: each truthy field (and a string
   * `type`) replaces the stored one, normalised as on create; every other
   * field, and the id, stay.
   */
  function Patch(u: UserRecord, hash: string -> string, body: UserBody): (v: UserRecord)
    ensures v.id == u.id
    ensures !Truthy(body.teamName) ==> v.teamName == u.teamName
    ensures !Truthy(body.email) ==> v.email == u.email
    ensures !Truthy(body.password) ==> v.passwordHash == u.passwordHash
    ensures body.userType.None? ==> v.userType == u.userType
    ensures Truthy(body.teamName) ==> v.teamName == Trim(body.teamName.value)
    ensures Truthy(body.email) ==> v.email == StoredEmail(body.email.value)
    ensures Truthy(body.password) ==> v.passwordHash == hash(body.password.value)
    ensures body.userType.Some? ==> v.userType == TypeOf(body.userType)
  {
    UserRecord(
      u.id,
      if Truthy(body.teamName) then Trim(body.teamName.value) else u.teamName,
      if Truthy(body.email) then StoredEmail(body.email.value) else u.email,
      if Truthy(body.password) then hash(body.password.value) else u.passwordHash,
      if body.userType.Some? then TypeOf(body.userType) else u.userType)
  }

  /** An empty body changes nothing, and applying the same body twice is applying it once. */
  lemma PatchIdentityAndIdempotent(u: UserRecord, hash: string -> string, body: UserBody)
    ensures Patch(u, hash, UserBody(None, None, None, None)) == u
    ensures Patch(Patch(u, hash, body), hash, body) == Patch(u, hash, body)
  {
  }

  /**
   * `updateUser`: an unknown id is `not_found`; an email that another user
   * already has is refused by the unique index; otherwise only that user
   * changes, to its patched form.
   */
  function UpdateOutcome(users: seq<UserRecord>, id: UserId, hash: string -> string, body: UserBody): (r: Reply<seq<UserRecord>>)
    ensures r == Fail(NotFound) <==> forall i :: 0 <= i < |users| ==> users[i].id != id
    ensures r.Ok? ==> |r.value| == |users|
    ensures r.Ok? ==>
      exists k ::
        && 0 <= k < |users| && users[k].id == id
        && r.value[k] == Patch(users[k], hash, body)
        && forall j :: 0 <= j < |users| && j != k ==> r.value[j] == users[j]
    ensures r == Fail(DuplicateKey) <==>
      exists k ::
        && 0 <= k < |users| && users[k].id == id
        && (forall j :: 0 <= j < k ==> users[j].id != id)
        && EmailClash(users, k, Patch(users[k], hash, body).email)
    ensures r.Fail? ==> r.error == NotFound || r.error == DuplicateKey
  {
    match IdOwner(users, id)
    case None => Fail(NotFound)
    case Some(k) =>
      var v := Patch(users[k], hash, body);
      if EmailClash(users, k, v.email) then Fail(DuplicateKey)
      else Ok(users[k := v])
  }

  /** An accepted update keeps the directory valid: ids stay, and emails stay unique. */
  lemma UpdateKeepsValid(users: seq<UserRecord>, nextId: UserId, id: UserId, hash: string -> string, body: UserBody)
    requires ValidUsers(users, nextId)
    ensures var r := UpdateOutcome(users, id, hash, body);
      r.Ok? ==> ValidUsers(r.value, nextId)
  {
    var r := UpdateOutcome(users, id, hash, body);
    if r.Ok? {
      var k := IdOwner(users, id).value;
      assert r.value == users[k := Patch(users[k], hash, body)];
    }
  }

  // ----- deleteUser -----

  /** The collection after `findByIdAndDelete`: every user but the one with that id, in order. */
  function DeleteById(users: seq<UserRecord>, id: UserId): (r: seq<UserRecord>)
    ensures |r| <= |users|
    ensures forall u :: u in r <==> u in users && u.id != id
  {
    if users == [] then []
    else (if users[0].id == id then [] else [users[0]]) + DeleteById(users[1..], id)
  }

  /** With unique ids, a delete removes exactly one user when the id is known and none otherwise. */
  lemma {:induction false} DeleteByIdCount(users: seq<UserRecord>, id: UserId)
    requires UniqueIds(users)
    ensures IdOwner(users, id).None? ==> DeleteById(users, id) == users
    ensures IdOwner(users, id).Some? ==> |DeleteById(users, id)| == |users| - 1
  {
    if users != [] {
      var tail := users[1..];
      assert UniqueIds(tail) by {
        forall i, j | 0 <= i < j < |tail| ensures tail[i].id != tail[j].id {
          assert tail[i] == users[i + 1] && tail[j] == users[j + 1];
        }
      }
      DeleteByIdCount(tail, id);
      if users[0].id == id {
        assert IdOwner(tail, id).None? by {
          forall i | 0 <= i < |tail| ensures tail[i].id != id {
            assert tail[i] == users[i + 1];
          }
        }
      } else {
        assert [users[0]] + tail == users;
      }
    }
  }

  /** Deleting keeps the directory valid. */
  lemma {:induction false} DeleteKeepsValid(users: seq<UserRecord>, nextId: UserId, id: UserId)
    requires ValidUsers(users, nextId)
    ensures ValidUsers(DeleteById(users, id), nextId)
  {
    if users != [] {
      var tail := users[1..];
      assert ValidUsers(tail, nextId) by {
        assert forall i :: 0 <= i < |tail| ==> tail[i] == users[i + 1];
      }
      DeleteKeepsValid(tail, nextId, id);
      if users[0].id != id {
        HeadBeforeKept(users, nextId, id);
        ValidUsersCons(users[0], DeleteById(tail, id), nextId);
      }
    }
  }

  /** The first user differs in email from, and is older than, every user a delete keeps after it. */
  lemma HeadBeforeKept(users: seq<UserRecord>, nextId: UserId, id: UserId)
    requires users != [] && ValidUsers(users, nextId)
    ensures forall j :: 0 <= j < |DeleteById(users[1..], id)| ==>
      users[0].email != DeleteById(users[1..], id)[j].email && users[0].id < DeleteById(users[1..], id)[j].id
  {
    var rest := DeleteById(users[1..], id);
    forall j | 0 <= j < |rest| ensures users[0].email != rest[j].email && users[0].id < rest[j].id {
      assert rest[j] in users[1..];
      var k :| 0 <= k < |users[1..]| && users[1..][k] == rest[j];
      assert users[k + 1] == rest[j];
    }
  }

  lemma ValidUsersCons(u: UserRecord, rest: seq<UserRecord>, nextId: UserId)
    requires ValidUsers(rest, nextId) && u.id < nextId
    requires forall j :: 0 <= j < |rest| ==> u.email != rest[j].email && u.id < rest[j].id
    ensures ValidUsers([u] + rest, nextId)
  {
    var r := [u] + rest;
    assert forall i :: 0 < i < |r| ==> r[i] == rest[i - 1];
  }

  // ----- adminLogin -----

  /**
   * `adminLogin`: missing fields are `missing_fields`; otherwise the login
   * succeeds exactly when a user is stored under the normalised email and the
   * password hashes to its stored hash, and it answers that user without the
   * hash.
   */
  function LoginOutcome(users: seq<UserRecord>, hash: string -> string, email: Option<string>, password: Option<string>): (r: Reply<PublicUser>)
    ensures r == Fail(MissingFields) <==> !Truthy(email) || !Truthy(password)
    ensures r.Fail? ==> r.error == MissingFields || r.error == InvalidCredentials
    ensures r.Ok? ==>
      exists i ::
        && 0 <= i < |users| && users[i].email == StoredEmail(email.value)
        && users[i].passwordHash == hash(password.value) && r.value == Public(users[i])
  {
    if !Truthy(email) || !Truthy(password) then Fail(MissingFields)
    else
      LookupFindsStored(email.value);
      match EmailOwner(users, LookupKey(email.value))
      case None => Fail(InvalidCredentials)
      case Some(k) =>
        if hash(password.value) != users[k].passwordHash then Fail(InvalidCredentials)
        else Ok(Public(users[k]))
  }

  /** With unique emails, the right password for a stored email always logs in as that user. */
  lemma LoginWithStoredPassword(users: seq<UserRecord>, hash: string -> string, k: nat, email: string, password: string)
    requires UniqueEmails(users)
    requires k < |users| && users[k].email == StoredEmail(email) && users[k].passwordHash == hash(password)
    requires email != "" && password != ""
    ensures LoginOutcome(users, hash, Some(email), Some(password)) == Ok(Public(users[k]))
  {
    LookupFindsStored(email);
    var o := EmailOwner(users, LookupKey(email));
    assert o.Some?;
    assert o.value == k;
  }

  /** A freshly created user can log in with the password it was created with. */
  lemma CreatedUserCanLogIn(users: seq<UserRecord>, nextId: UserId, hash: string -> string, body: UserBody)
    requires ValidUsers(users, nextId)
    requires CreateOutcome(users, nextId, hash, body).Ok?
    ensures var u := CreateOutcome(users, nextId, hash, body).value;
      LoginOutcome(users + [u], hash, body.email, body.password) == Ok(Public(u))
  {
    var u := CreateOutcome(users, nextId, hash, body).value;
    CreateKeepsValid(users, nextId, hash, body);
    LoginWithStoredPassword(users + [u], hash, |users|, body.email.value, body.password.value);
  }

  // ----- listUsers -----

  /** `listUsers`: the users newest first (`sort({ createdAt: -1 })`), each without its hash. */
  function ListUsers(users: seq<UserRecord>): (r: seq<PublicUser>)
    ensures |r| == |users|
    ensures forall i :: 0 <= i < |users| ==> r[i] == Public(users[|users| - 1 - i])
  {
    if users == [] then []
    else ListUsers(users[1..]) + [Public(users[0])]
  }

  /** In a valid directory the listing is newest first: ids strictly decrease along it. */
  lemma ListNewestFirst(users: seq<UserRecord>, nextId: UserId)
    requires ValidUsers(users, nextId)
    ensures var r := ListUsers(users);
      forall i, j :: 0 <= i < j < |r| ==> r[i].id > r[j].id
  {
  }

  // ----- The directory -----

  /** The user collection: records in creation order, the next id, and the password hash in use. */
  class UserDirectory {
    var users: seq<UserRecord>
    var nextId: UserId
    const hash: string -> string

    ghost predicate Valid()
      reads this
    {
      ValidUsers(users, nextId)
    }

    constructor (hash: string -> string)
      ensures Valid() && users == [] && this.hash == hash
    {
      users := [];
      nextId := 0;
      this.hash := hash;
    }

    /** `findOne({ email: key })`: scan for the user stored under the key. */
    method FindByEmail(key: string) returns (idx: Option<nat>)
      ensures idx == EmailOwner(users, key)
    {
      var i := 0;
      while i < |users|
        invariant 0 <= i <= |users|
        invariant forall j :: 0 <= j < i ==> users[j].email != key
      {
        if users[i].email == key {
          EmailOwnerFirst(users, key, i);
          return Some(i);
        }
        i := i + 1;
      }
      return None;
    }

    /** `POST /api/users`. */
    method CreateUser(body: UserBody) returns (r: Reply<PublicUser>)
      requires Valid()
      modifies this
      ensures Valid()
      ensures var o := CreateOutcome(old(users), old(nextId), hash, body);
        && (o.Fail? ==> r == Fail(o.error) && users == old(users) && nextId == old(nextId))
        && (o.Ok? ==> r == Ok(Public(o.value)) && users == old(users) + [o.value] && nextId == old(nextId) + 1)
    {
      var o := CreateOutcome(users, nextId, hash, body);
      CreateKeepsValid(users, nextId, hash, body);
      if o.Fail? {
        return Fail(o.error);
      }
      users := users + [o.value];
      nextId := nextId + 1;
      r := Ok(Public(o.value));
    }

    /** `PUT /api/users/:id`: the `update` object is built field by field. */
    method UpdateUser(id: UserId, body: UserBody) returns (r: Reply<PublicUser>)
      requires Valid()
      modifies this
      ensures Valid() && nextId == old(nextId)
      ensures var o := UpdateOutcome(old(users), id, hash, body);
        && (o.Fail? ==> r == Fail(o.error) && users == old(users))
        && (o.Ok? ==> users == o.value && r.Ok? && Public(Patch(old(users)[IdOwner(old(users), id).value], hash, body)) == r.value)
    {
      var found := IdOwner(users, id);
      UpdateKeepsValid(users, nextId, id, hash, body);
      if found.None? {
        return Fail(NotFound);
      }
      var k := found.value;
      var v := users[k];
      if Truthy(body.teamName) {
        v := v.(teamName := Trim(body.teamName.value));
      }
      if Truthy(body.email) {
        v := v.(email := StoredEmail(body.email.value));
      }
      if body.userType.Some? {
        v := v.(userType := TypeOf(body.userType));
      }
      if Truthy(body.password) {
        v := v.(passwordHash := hash(body.password.value));
      }
      assert v == Patch(users[k], hash, body);
      if EmailClash(users, k, v.email) {
        return Fail(DuplicateKey);
      }
      users := users[k := v];
      r := Ok(Public(v));
    }

    /** `DELETE /api/users/:id`. */
    method DeleteUser(id: UserId) returns (r: Reply<()>)
      requires Valid()
      modifies this
      ensures Valid() && nextId == old(nextId)
      ensures IdOwner(old(users), id).None? ==> r == Fail(NotFound) && users == old(users)
      ensures IdOwner(old(users), id).Some? ==> r == Ok(()) && users == DeleteById(old(users), id)
    {
      DeleteKeepsValid(users, nextId, id);
      if IdOwner(users, id).None? {
        DeleteByIdCount(users, id);
        return Fail(NotFound);
      }
      users := DeleteById(users, id);
      r := Ok(());
    }

    /** `POST /api/admin/login`. */
    method AdminLogin(email: Option<string>, password: Option<string>) returns (r: Reply<PublicUser>)
      ensures r == LoginOutcome(users, hash, email, password)
    {
      if !Truthy(email) || !Truthy(password) {
        return Fail(MissingFields);
      }
      var idx := FindByEmail(LookupKey(email.value));
      if idx.None? {
        return Fail(InvalidCredentials);
      }
      var u := users[idx.value];
      if hash(password.value) != u.passwordHash {
        return Fail(InvalidCredentials);
      }
      r := Ok(Public(u));
    }
  }

  lemma EmailOwnerFirst(users: seq<UserRecord>, key: string, i: nat)
    requires i < |users| && users[i].email == key
    requires forall j :: 0 <= j < i ==> users[j].email != key
    ensures EmailOwner(users, key) == Some(i)
  {
    if i > 0 {
      EmailOwnerFirst(users[1..], key, i - 1);
    }
  }
}
