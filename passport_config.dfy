/** Google sign-in (`src/app/config/passportConfig.js`): the verify callback that finds or
    creates the account for a Google profile, and the session serialisation by `user_id`. */
module PassportConfig {
  import opened Common
  import opened Text
  import opened Seqs
  import opened Collections

  /** The parts of a Google profile the callback reads. `emails` and `photos` are the lists
      of `{ value }` entries, absent when the profile carries no such list; an entry may
      lack its `value`. */
  datatype Profile = Profile(
    id: Option<string>,
    displayName: Option<string>,
    emails: Option<seq<Option<string>>>,
    photos: Option<seq<Option<string>>>)

  /** `list[0]?.value || null`. */
  function FirstValue(list: seq<Option<string>>): (r: Option<string>)
    ensures r.Some? <==> |list| > 0 && Present(list[0])
    ensures r.Some? ==> r == list[0]
  {
    if |list| == 0 then None else OrNull(list[0])
  }

  /** The account created for a profile seen for the first time, the `count`-th insert
      numbering it; absent when the profile lacks its `emails` or `photos` list, where
      reading `[0]` throws. */
  function GoogleUser(count: nat, code: string, profile: Profile, now: int): (u: Option<User>)
    ensures u.Some? <==> profile.emails.Some? && profile.photos.Some?
    ensures u.Some? ==>
      && u.value.user_id == NewUserId(count, code)
      && u.value.googleId == OrNull(profile.id)
      && u.value.name == OrNull(profile.displayName)
      && u.value.email == FirstValue(profile.emails.value)
      && u.value.password.None?
      && u.value.avatar == Avatar(None, FirstValue(profile.photos.value))
      && u.value.role == "user"
      && !u.value.banned_user && !u.value.deleted_user && u.value.email_verified
      && u.value.createdAt == now
  {
    if profile.emails.None? || profile.photos.None? then None
    else Some(User(
      NewUserId(count, code), OrNull(profile.id), OrNull(profile.displayName),
      FirstValue(profile.emails.value), None, Avatar(None, FirstValue(profile.photos.value)),
      "user", false, false, true, now))
  }

  /** The Google verify callback. An account whose `googleId` equals the profile's id is
      reused as it is; otherwise one is inserted and read back by its new `user_id`. A
      refused insert is reported with status 400; a malformed profile fails the callback. */
  method GoogleVerify(db: Db, profile: Profile, code: string, now: int, acknowledged: bool)
    returns (r: Response<User>)
    requires IsHexCode(code, 16)
    modifies db
    ensures db.posts == old(db.posts) && db.comments == old(db.comments)
    ensures !r.Redirect?
    ensures var f := FindFirst(old(db.users), UserWithGoogleId(profile.id));
      f.Some? ==> r == Ok(old(db.users)[f.value]) && db.users == old(db.users)
    ensures var f := FindFirst(old(db.users), UserWithGoogleId(profile.id));
      var created := GoogleUser(|old(db.users)|, code, profile, now);
      && (f.None? && created.None? ==> r == Fail(500, MalformedProfile) && db.users == old(db.users))
      && (f.None? && created.Some? && !acknowledged ==>
            r == Fail(400, WriteNotAcknowledged) && db.users == old(db.users))
      && (f.None? && created.Some? && acknowledged ==>
            && db.users == old(db.users) + [created.value]
            && r.Ok? && r.value.user_id == created.value.user_id
            && (NumberedUsers(old(db.users)) ==> r == Ok(created.value)))
    ensures NumberedUsers(old(db.users)) ==> NumberedUsers(db.users)
  {
    var found := FindFirst(db.users, UserWithGoogleId(profile.id));
    if found.Some? {
      return Ok(db.users[found.value]);
    }
    var count := |db.users|;
    var created := GoogleUser(count, code, profile, now);
    if created.None? {
      return Fail(500, MalformedProfile);
    }
    var newUser := created.value;
    if !acknowledged {
      return Fail(400, WriteNotAcknowledged);
    }
    if NumberedUsers(db.users) {
      AppendKeepsNumbering(db.users, newUser, code);
      NumberedUsersAreDistinct(db.users + [newUser]);
    }
    db.users := db.users + [newUser];
    assert UserWithId(Some(newUser.user_id))(db.users[count]);
    var k := FindFirst(db.users, UserWithId(Some(newUser.user_id))).value;
    if NumberedUsers(old(db.users)) {
      assert k == count;
    }
    r := Ok(db.users[k]);
  }

  /** Signing in again with the same Google account finds the account the first sign-in
      created, so no second one is made. */
  lemma CreatedAccountIsFoundAgain(users: seq<User>, code: string, profile: Profile, now: int)
    requires Present(profile.id)
    requires FindFirst(users, UserWithGoogleId(profile.id)).None?
    requires GoogleUser(|users|, code, profile, now).Some?
    ensures var s := users + [GoogleUser(|users|, code, profile, now).value];
      FindFirst(s, UserWithGoogleId(profile.id)) == Some(|users|)
  {
    var s := users + [GoogleUser(|users|, code, profile, now).value];
    assert UserWithGoogleId(profile.id)(s[|users|]);
    forall j | 0 <= j < |users| ensures !UserWithGoogleId(profile.id)(s[j]) {
      assert s[j] == users[j];
    }
  }

  /** A profile whose id is the empty string is stored with a null `googleId`, so the
      lookup by that id never finds it: each such sign-in creates another account. */
  lemma EmptyGoogleIdIsNeverFound(users: seq<User>, code: string, profile: Profile, now: int)
    requires profile.id == Some("")
    requires FindFirst(users, UserWithGoogleId(profile.id)).None?
    requires GoogleUser(|users|, code, profile, now).Some?
    ensures FindFirst(users + [GoogleUser(|users|, code, profile, now).value], UserWithGoogleId(profile.id)).None?
  {
    var s := users + [GoogleUser(|users|, code, profile, now).value];
    forall j | 0 <= j < |s| ensures !UserWithGoogleId(profile.id)(s[j]) {
      if j < |users| {
        assert s[j] == users[j];
        assert !UserWithGoogleId(profile.id)(users[j]);
      }
    }
  }

  /** A profile without an id looks up `googleId: null`, which every account registered
      by e-mail has: the sign-in answers with the first such account. */
  lemma MissingGoogleIdTakesLocalAccount(users: seq<User>, i: nat)
    requires i < |users| && users[i].googleId.None?
    ensures FindFirst(users, UserWithGoogleId(None)).Some?
    ensures FindFirst(users, UserWithGoogleId(None)).value <= i
  {
    assert UserWithGoogleId(None)(users[i]);
  }

  /** `serializeUser`: the session keeps the `user_id` and nothing else of the account. */
  function Serialize(u: User): (id: string)
    ensures id == u.user_id
  {
    u.user_id
  }

  /** `deserializeUser`: the first account with that `user_id`, or null. */
  function Deserialize(users: seq<User>, id: string): (u: Option<User>)
    ensures u.Some? ==> u.value in users && u.value.user_id == id
    ensures u.None? <==> forall i :: 0 <= i < |users| ==> users[i].user_id != id
  {
    match FindFirst(users, UserWithId(Some(id)))
    case None => None
    case Some(k) => Some(users[k])
  }

  /** With users numbered by position, deserialising a serialised account gives that
      account back. */
  lemma SessionRoundTrip(users: seq<User>, i: nat)
    requires NumberedUsers(users) && i < |users|
    ensures Deserialize(users, Serialize(users[i])) == Some(users[i])
  {
    NumberedUsersAreDistinct(users);
    assert UserWithId(Some(users[i].user_id))(users[i]);
  }
}
