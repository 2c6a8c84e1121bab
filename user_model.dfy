/**
 * The `users` table record of the user authentication service
 * (0x03-user_authentication_service/user.py): an integer primary key, a non-nullable
 * `email` and `hashed_password`, and the nullable `session_id` and `reset_token`.
 * Columns are also reachable by name, the way `filter_by(**kwargs)` and `setattr` reach them.
 */
module UserModel {
  import opened Wrappers

  datatype User = User(
    id: int,
    email: string,
    hashedPassword: string,
    sessionId: Option<string>,
    resetToken: Option<string>)

  datatype Column = Id | Email | HashedPassword | SessionId | ResetToken

  /** A Python value handed to a query or an assignment: an `int`, a `str` or `None`. */
  datatype Value = Int(i: int) | Str(s: string) | Null

  /** The attribute name of each column. */
  function Name(c: Column): string
  {
    match c
    case Id => "id"
    case Email => "email"
    case HashedPassword => "hashed_password"
    case SessionId => "session_id"
    case ResetToken => "reset_token"
  }

  /** The column an attribute name denotes, if any. */
  function ColumnNamed(name: string): (r: Option<Column>)
    ensures r.Some? ==> Name(r.value) == name
    ensures r.None? ==> forall c :: Name(c) != name
  {
    if name == "id" then Some(Id)
    else if name == "email" then Some(Email)
    else if name == "hashed_password" then Some(HashedPassword)
    else if name == "session_id" then Some(SessionId)
    else if name == "reset_token" then Some(ResetToken)
    else None
  }

  /** Every column is found again under its own name. */
  lemma ColumnNamesRoundTrip(c: Column)
    ensures ColumnNamed(Name(c)) == Some(c)
  {
  }

  /** Which values a column can hold: `id` an integer, `email` and `hashed_password` never `None`. */
  predicate Fits(c: Column, v: Value)
  {
    match c
    case Id => v.Int?
    case Email | HashedPassword => v.Str?
    case SessionId | ResetToken => v.Str? || v.Null?
  }

  function Nullable(o: Option<string>): Value
  {
    match o
    case None => Null
    case Some(s) => Str(s)
  }

  /** Reading a column. */
  function Get(u: User, c: Column): (v: Value)
    ensures Fits(c, v)
  {
    match c
    case Id => Int(u.id)
    case Email => Str(u.email)
    case HashedPassword => Str(u.hashedPassword)
    case SessionId => Nullable(u.sessionId)
    case ResetToken => Nullable(u.resetToken)
  }

  /** `setattr(user, name, value)` for a column name and a value the column can hold. */
  function Set(u: User, c: Column, v: Value): (r: User)
    requires Fits(c, v)
    ensures Get(r, c) == v
    ensures forall d :: d != c ==> Get(r, d) == Get(u, d)
  {
    match c
    case Id => u.(id := v.i)
    case Email => u.(email := v.s)
    case HashedPassword => u.(hashedPassword := v.s)
    case SessionId => u.(sessionId := if v.Null? then None else Some(v.s))
    case ResetToken => u.(resetToken := if v.Null? then None else Some(v.s))
  }

  /** A record is determined by its columns. */
  lemma {:induction false} SameColumnsSameUser(u: User, w: User)
    requires forall c :: Get(u, c) == Get(w, c)
    ensures u == w
  {
    assert Get(u, Id) == Get(w, Id);
    assert Get(u, Email) == Get(w, Email);
    assert Get(u, HashedPassword) == Get(w, HashedPassword);
    assert Get(u, SessionId) == Get(w, SessionId);
    assert Get(u, ResetToken) == Get(w, ResetToken);
  }

  /** Assigning a column the value it already holds changes nothing. */
  lemma SetOwnValue(u: User, c: Column)
    ensures Set(u, c, Get(u, c)) == u
  {
    SameColumnsSameUser(Set(u, c, Get(u, c)), u);
  }

  /** A record as `User(email=..., hashed_password=...)` creates it, once the table gives it an id. */
  function NewUser(id: int, email: string, hashedPassword: string): (u: User)
    ensures Get(u, Id) == Int(id) && Get(u, Email) == Str(email) && Get(u, HashedPassword) == Str(hashedPassword)
    ensures Get(u, SessionId) == Null && Get(u, ResetToken) == Null
  {
    User(id, email, hashedPassword, None, None)
  }
}
