/**
 * The user document (server/models/User.ts): a team with a login email, a
 * password hash and a code type, and the invariants the collection keeps.
 */
module UserSchema {
  import opened Wrappers
  import opened Text

  /** `type`: enum ["HSV", "OSV"], default "HSV". */
  datatype UserType = HSV | OSV

  /** The document identifier (`_id`), handed out in creation order. */
  type UserId = nat

  /** One stored user; `teamName` and `email` pass through the schema's `trim`. */
  datatype UserRecord = UserRecord(id: UserId, teamName: string, email: string, passwordHash: string, userType: UserType)

  /** What the routes send back: the user without its password hash. */
  datatype PublicUser = PublicUser(id: UserId, teamName: string, email: string, userType: UserType)

  function Public(u: UserRecord): (p: PublicUser)
    ensures p.id == u.id && p.teamName == u.teamName && p.email == u.email && p.userType == u.userType
  {
    PublicUser(u.id, u.teamName, u.email, u.userType)
  }

  /** `type === "OSV" ? "OSV" : "HSV"`: only the exact string "OSV" selects OSV. */
  function TypeOf(raw: Option<string>): (t: UserType)
    ensures t == OSV <==> raw == Some("OSV")
  {
    if raw == Some("OSV") then OSV else HSV
  }

  /** How an email is stored: trimmed, then lower-cased. */
  function StoredEmail(email: string): string {
    ToLower(Trim(email))
  }

  /** The key the duplicate check and the login look an email up by: lower-cased, then trimmed. */
  function LookupKey(email: string): string {
    Trim(ToLower(email))
  }

  /** The two normalisations agree, so the lookup finds exactly the stored form. */
  lemma LookupFindsStored(email: string)
    ensures LookupKey(email) == StoredEmail(email)
  {
    LowerTrimCommute(email);
  }

  /** Normalising a stored email again changes nothing. */
  lemma StoredEmailStable(email: string)
    ensures StoredEmail(StoredEmail(email)) == StoredEmail(email)
    ensures LookupKey(StoredEmail(email)) == StoredEmail(email)
  {
    var x := StoredEmail(email);
    LowerTrimCommute(Trim(email));
    TrimIdempotent(email);
    assert Trim(x) == x;
    LowerIdempotent(Trim(email));
    LookupFindsStored(x);
  }

  /** `email` is `unique`. */
  predicate UniqueEmails(users: seq<UserRecord>) {
    forall i, j :: 0 <= i < j < |users| ==> users[i].email != users[j].email
  }

  predicate UniqueIds(users: seq<UserRecord>) {
    forall i, j :: 0 <= i < j < |users| ==> users[i].id != users[j].id
  }

  /**
   * The directory invariant: ids and emails unique, ids below the next one to
   * hand out and increasing in creation order, as `createdAt` does.
   */
  predicate ValidUsers(users: seq<UserRecord>, nextId: UserId) {
    && UniqueEmails(users)
    && (forall i, j :: 0 <= i < j < |users| ==> users[i].id < users[j].id)
    && (forall i :: 0 <= i < |users| ==> users[i].id < nextId)
  }

  lemma ValidUsersHaveUniqueIds(users: seq<UserRecord>, nextId: UserId)
    requires ValidUsers(users, nextId)
    ensures UniqueIds(users)
  {
  }
}
