/**
 * The `Auth` class of the user authentication service (0x03-user_authentication_service/auth.py):
 * registration with a duplicate check, the login check, sessions and password-reset tokens,
 * all over the `DB` table. bcrypt and `uuid.uuid4` are outside the model: the hash and check
 * functions are a `Crypto` value, and every salt or token the source would draw is a parameter.
 */
module UserAuthService {
  import opened Wrappers
  import opened UserModel
  import opened UserDb

  /** `bcrypt.hashpw(password, salt)` and `bcrypt.checkpw(password, hashed)`. */
  datatype Crypto = Crypto(hashpw: (string, string) -> string, checkpw: (string, string) -> bool)

  /** The one fact about bcrypt the service relies on: a password checks against its own hash. */
  ghost predicate Sound(crypto: Crypto)
  {
    forall password, salt :: crypto.checkpw(password, crypto.hashpw(password, salt))
  }

  datatype AuthError = UserExists(email: string) | NotFound | TypeError

  function ByEmail(email: string): Kwargs
  {
    [("email", Str(email))]
  }

  function BySession(sessionId: string): Kwargs
  {
    [("session_id", Str(sessionId))]
  }

  predicate Registered(users: seq<User>, email: string)
  {
    exists j :: 0 <= j < |users| && users[j].email == email
  }

  /** The position of the first record with the email. */
  function FirstWithEmail(users: seq<User>, email: string): (i: nat)
    requires Registered(users, email)
    ensures i < |users| && users[i].email == email
    ensures forall j :: 0 <= j < i ==> users[j].email != email
  {
    MatchesByEmailAll(users, email);
    FirstMatch(users, ByEmail(email)).value
  }

  lemma MatchesByEmailAll(users: seq<User>, email: string)
    ensures KnownKeys(ByEmail(email))
    ensures forall j :: 0 <= j < |users| ==> (Matches(users[j], ByEmail(email)) <==> users[j].email == email)
  {
    assert ByEmail(email)[0] == ("email", Str(email));
    assert ColumnNamed("email") == Some(Email);
  }

  /** `find_user_by(email=email)` finds the first record with the email, or raises `NoResultFound`. */
  lemma FindByEmail(users: seq<User>, email: string)
    ensures Find(users, ByEmail(email)).Success? <==> Registered(users, email)
    ensures Find(users, ByEmail(email)).Failure? ==> Find(users, ByEmail(email)).error == NoResultFound
    ensures Registered(users, email) ==> Find(users, ByEmail(email)).value == users[FirstWithEmail(users, email)]
  {
    MatchesByEmailAll(users, email);
  }

  /** `find_user_by(session_id=s)` matches exactly the records whose session is `s`. */
  lemma FindBySession(users: seq<User>, sessionId: string)
    ensures KnownKeys(BySession(sessionId))
    ensures forall j :: 0 <= j < |users| ==>
              (Matches(users[j], BySession(sessionId)) <==> users[j].sessionId == Some(sessionId))
  {
    assert BySession(sessionId)[0] == ("session_id", Str(sessionId));
    assert ColumnNamed("session_id") == Some(SessionId);
  }

  /**
   * `valid_login`: false when no record has the email (the lookup's exception is caught);
   * otherwise whether the password checks against the first such record's hash.
   */
  function LoginValid(users: seq<User>, crypto: Crypto, email: string, password: string): (b: bool)
    ensures !Registered(users, email) ==> !b
    ensures Registered(users, email) ==>
              (b <==> crypto.checkpw(password, users[FirstWithEmail(users, email)].hashedPassword))
  {
    FindByEmail(users, email);
    match Find(users, ByEmail(email))
    case Success(u) => crypto.checkpw(password, u.hashedPassword)
    case Failure(_) => false
  }

  /**
   * `get_user_from_session_id`: `None` for no session id; otherwise the first record holding
   * it, or `None` when no record does.
   */
  function SessionUser(users: seq<User>, sessionId: Option<string>): (r: Option<User>)
    ensures sessionId.None? ==> r.None?
    ensures r.None? <==> sessionId.None? || forall j :: 0 <= j < |users| ==> users[j].sessionId != sessionId
    ensures r.Some? ==> r.value in users && r.value.sessionId == sessionId
  {
    if sessionId.None? then None
    else
      FindBySession(users, sessionId.value);
      match Find(users, BySession(sessionId.value))
      case Success(u) => Some(u)
      case Failure(_) => None
  }

  /**
   * `create_session` with `token` as the fresh uuid: `None` and no change for an unknown
   * email; otherwise the first record with the email gets the token as its session id
   * (set on the mapped object, so it persists without a commit) and the token is returned.
   */
  function StartSession(users: seq<User>, email: string, token: string): (r: (Option<string>, seq<User>))
    ensures !Registered(users, email) ==> r == (None, users)
    ensures Registered(users, email) ==>
              var i := FirstWithEmail(users, email);
              r == (Some(token), users[i := users[i].(sessionId := Some(token))])
  {
    FindByEmail(users, email);
    if Registered(users, email) then
      var i := FirstWithEmail(users, email);
      (Some(token), users[i := users[i].(sessionId := Some(token))])
    else (None, users)
  }

  /** A session started with a token no record holds leads back to the record with the email. */
  lemma SessionRoundTrip(users: seq<User>, email: string, token: string)
    requires Registered(users, email)
    requires forall j :: 0 <= j < |users| ==> users[j].sessionId != Some(token)
    ensures var after := StartSession(users, email, token).1;
            SessionUser(after, Some(token)).Some? &&
            SessionUser(after, Some(token)).value.email == email &&
            SessionUser(after, Some(token)).value.sessionId == Some(token)
  {
    var i := FirstWithEmail(users, email);
    var after := StartSession(users, email, token).1;
    assert after[i].sessionId == Some(token);
    assert forall j :: 0 <= j < |after| && j != i ==> after[j] == users[j];
    var r := SessionUser(after, Some(token));
    FindBySession(after, token);
    assert r.value == after[i];
  }

  /**
   * `destroy_session` as written: it raises `NoResultFound` for an unknown id; for a known
   * one it overwrites `user_id` with `None` and passes `{'session_id': None}` positionally
   * to `update_user`, whose only positional parameter is the id, so the call raises
   * `TypeError`. It never ends a session.
   */
  function EndSessionAsWritten(users: seq<User>, userId: int): (r: Result<(), AuthError>)
    ensures r == if forall j :: 0 <= j < |users| ==> users[j].id != userId then Failure(NotFound) else Failure(TypeError)
  {
    MatchesByIdAll(users, userId);
    match Find(users, ById(userId))
    case Failure(_) => Failure(NotFound)
    case Success(_) => Failure(TypeError)
  }

  /**
   * `destroy_session` as intended: `update_user(user_id, session_id=None)` for a known id,
   * `NoResultFound` from the lookup otherwise.
   */
  function EndSession(users: seq<User>, userId: int): (r: (Result<(), AuthError>, seq<User>))
    ensures (forall j :: 0 <= j < |users| ==> users[j].id != userId) ==> r == (Failure(NotFound), users)
  {
    MatchesByIdAll(users, userId);
    match Find(users, ById(userId))
    case Failure(_) => (Failure(NotFound), users)
    case Success(_) =>
      assert Typed([("session_id", Null)]) by { assert ColumnNamed("session_id") == Some(SessionId); }
      var (res, after) := Update(users, userId, [("session_id", Null)]);
      (if res.Success? then Success(()) else Failure(NotFound), after)
  }

  /**
   * After the intended `destroy_session` of a record holding a session, that record's session
   * is cleared, nothing else changes, and the old session id no longer leads to anyone if it
   * was that record's alone.
   */
  lemma EndSessionLogsOut(users: seq<User>, i: nat, token: string)
    requires DistinctIds(users) && i < |users| && users[i].sessionId == Some(token)
    requires forall j :: 0 <= j < |users| && j != i ==> users[j].sessionId != Some(token)
    ensures var (r, after) := EndSession(users, users[i].id);
            r == Success(()) &&
            after == users[i := users[i].(sessionId := None)] &&
            SessionUser(after, Some(token)).None?
  {
    var kwargs := [("session_id", Null)];
    assert ColumnNamed("session_id") == Some(SessionId);
    assert Typed(kwargs) && DistinctKeys(kwargs) && KnownKeys(kwargs);
    FirstMatchById(users, i);
    MatchesByIdAll(users, users[i].id);
    UpdateSucceeds(users, users[i].id, kwargs);
    UpdateFrame(users, users[i].id, kwargs);
    UpdateAssigns(users, users[i].id, kwargs, i);
    var after := Update(users, users[i].id, kwargs).1;
    assert KnownPrefix(kwargs) == 1;
    assert ColumnOf(kwargs, 0) == SessionId;
    assert Get(after[i], SessionId) == Null;
    SameColumnsSameUser(after[i], users[i].(sessionId := None));
    assert after == users[i := users[i].(sessionId := None)];
  }

  /** `update_user(user.id, reset_token=token)` on the record at `i` sets its reset token and nothing else. */
  lemma UpdateResetToken(users: seq<User>, i: nat, token: string)
    requires DistinctIds(users) && i < |users|
    ensures var kwargs := [("reset_token", Str(token))];
            Typed(kwargs) &&
            Update(users, users[i].id, kwargs) == (Success(()), users[i := users[i].(resetToken := Some(token))])
    ensures DistinctIds(users[i := users[i].(resetToken := Some(token))])
  {
    var kwargs := [("reset_token", Str(token))];
    assert ColumnNamed("reset_token") == Some(ResetToken);
    assert KnownKeys(kwargs) && Typed(kwargs);
    FirstMatchById(users, i);
    assert KnownPrefix(kwargs) == 1 && kwargs[..1] == kwargs;
    assert kwargs[1..] == [];
    assert Assign(users[i], kwargs) == Set(users[i], ResetToken, Str(token));
  }

  /** The service object: the table it owns and the injected bcrypt functions. */
  class Auth {
    const db: DB
    const crypto: Crypto

    predicate Valid()
      reads db
    {
      db.Valid()
    }

    /** `Auth()`: a fresh, empty table. */
    constructor (crypto: Crypto)
      ensures fresh(db) && db.users == [] && Valid() && this.crypto == crypto
    {
      db := new DB();
      this.crypto := crypto;
    }

    /**
     * `register_user` with `salt` as `bcrypt.gensalt()`: `ValueError` and no change when the
     * email is taken; otherwise one new record holding the hash of the password, after which
     * the same email and password log in.
     */
    method RegisterUser(email: string, password: string, salt: string) returns (r: Result<User, AuthError>)
      requires Valid()
      modifies db
      ensures Valid()
      ensures Registered(old(db.users), email) ==> r == Failure(UserExists(email)) && db.users == old(db.users)
      ensures !Registered(old(db.users), email) ==>
                r == Success(NewUser(NextId(old(db.users)), email, crypto.hashpw(password, salt))) &&
                db.users == old(db.users) + [r.value]
      ensures r.Success? && Sound(crypto) ==> LoginValid(db.users, crypto, email, password)
    {
      FindByEmail(db.users, email);
      var found := db.FindUserBy(ByEmail(email));
      if found.Success? {
        return Failure(UserExists(email));
      }
      var hashed := crypto.hashpw(password, salt);
      ghost var before := db.users;
      var u := db.AddUser(email, hashed);
      r := Success(u);
      assert db.users[|before|] == u;
      assert FirstWithEmail(db.users, email) == |before|;
    }

    /** `valid_login`. */
    method ValidLogin(email: string, password: string) returns (b: bool)
      ensures b == LoginValid(db.users, crypto, email, password)
    {
      var found := db.FindUserBy(ByEmail(email));
      match found
      case Success(u) => b := crypto.checkpw(password, u.hashedPassword);
      case Failure(_) => b := false;
    }

    /** `create_session` with `token` as the fresh uuid. */
    method CreateSession(email: string, token: string) returns (r: Option<string>)
      requires Valid()
      modifies db
      ensures Valid()
      ensures (r, db.users) == StartSession(old(db.users), email, token)
    {
      FindByEmail(db.users, email);
      var found := db.FindUserBy(ByEmail(email));
      if found.Failure? {
        return None;
      }
      var i := FirstWithEmail(db.users, email);
      db.users := db.users[i := db.users[i].(sessionId := Some(token))];
      return Some(token);
    }

    /** `get_user_from_session_id`. */
    method GetUserFromSessionId(sessionId: Option<string>) returns (r: Option<User>)
      ensures r == SessionUser(db.users, sessionId)
    {
      if sessionId.None? {
        return None;
      }
      var found := db.FindUserBy(BySession(sessionId.value));
      match found
      case Success(u) => r := Some(u);
      case Failure(_) => r := None;
    }

    /**
     * `get_reset_password_token` with `token` as the fresh uuid: `NoResultFound` for an
     * unknown email (a found record is never falsy, so the `ValueError` branch cannot run);
     * otherwise `update_user(user.id, reset_token=token)` stores the token in that record.
     */
    method GetResetPasswordToken(email: string, token: string) returns (r: Result<string, AuthError>)
      requires Valid()
      modifies db
      ensures Valid()
      ensures !Registered(old(db.users), email) ==> r == Failure(NotFound) && db.users == old(db.users)
      ensures Registered(old(db.users), email) ==>
                var i := FirstWithEmail(old(db.users), email);
                r == Success(token) && db.users == old(db.users)[i := old(db.users)[i].(resetToken := Some(token))]
    {
      FindByEmail(db.users, email);
      var found := db.FindUserBy(ByEmail(email));
      if found.Failure? {
        return Failure(NotFound);
      }
      ghost var before := db.users;
      ghost var i := FirstWithEmail(before, email);
      UpdateResetToken(before, i, token);
      var updated := db.UpdateUser(found.value.id, [("reset_token", Str(token))]);
      return Success(token);
    }

    /** `destroy_session` as written. */
    method DestroySessionAsWritten(userId: int) returns (r: Result<(), AuthError>)
      ensures r == EndSessionAsWritten(db.users, userId)
    {
      var found := db.FindUserBy(ById(userId));
      if found.Failure? {
        return Failure(NotFound);
      }
      return Failure(TypeError);
    }

    /** `destroy_session` as intended. */
    method DestroySession(userId: int) returns (r: Result<(), AuthError>)
      requires Valid()
      modifies db
      ensures Valid()
      ensures (r, db.users) == EndSession(old(db.users), userId)
    {
      var found := db.FindUserBy(ById(userId));
      if found.Failure? {
        return Failure(NotFound);
      }
      var kwargs := [("session_id", Null)];
      assert ColumnNamed("session_id") == Some(SessionId);
      UpdateKeepsIdsDistinct(db.users, userId, kwargs);
      var updated := db.UpdateUser(userId, kwargs);
      r := if updated.Success? then Success(()) else Failure(NotFound);
    }
  }
}
