/**
 * The `DB` class of the user authentication service (0x03-user_authentication_service/db.py):
 * the `users` table as a sequence of records in insertion order, with `add_user`,
 * `find_user_by` and `update_user`. Keyword arguments are a sequence of (name, value) pairs
 * in call order, with distinct names as a Python `**kwargs` dictionary has them.
 */
module UserDb {
  import opened Wrappers
  import opened UserModel

  datatype DbError = NoResultFound | InvalidRequestError | ValueError

  type Kwargs = seq<(string, Value)>

  /** Every keyword names a column of the table. */
  predicate KnownKeys(kwargs: Kwargs)
  {
    forall k :: 0 <= k < |kwargs| ==> ColumnNamed(kwargs[k].0).Some?
  }

  predicate DistinctKeys(kwargs: Kwargs)
  {
    forall i, j :: 0 <= i < j < |kwargs| ==> kwargs[i].0 != kwargs[j].0
  }

  /** Every value given for a column is one the column can hold. */
  predicate Typed(kwargs: Kwargs)
  {
    forall k :: 0 <= k < |kwargs| && ColumnNamed(kwargs[k].0).Some? ==>
      Fits(ColumnNamed(kwargs[k].0).value, kwargs[k].1)
  }

  /** `filter_by(**criteria)` keeps a record when each named column equals its value (`None` as `IS NULL`). */
  predicate Matches(u: User, criteria: Kwargs)
    requires KnownKeys(criteria)
  {
    forall k :: 0 <= k < |criteria| ==> Get(u, ColumnNamed(criteria[k].0).value) == criteria[k].1
  }

  /** The position of the first record in table order that matches. */
  function FirstMatch(users: seq<User>, criteria: Kwargs): (r: Option<nat>)
    requires KnownKeys(criteria)
    ensures r.None? <==> forall j :: 0 <= j < |users| ==> !Matches(users[j], criteria)
    ensures r.Some? ==> r.value < |users| && Matches(users[r.value], criteria)
    ensures r.Some? ==> forall j :: 0 <= j < r.value ==> !Matches(users[j], criteria)
    decreases |users|
  {
    if users == [] then None
    else if Matches(users[0], criteria) then Some(0)
    else
      assert forall j :: 1 <= j < |users| ==> users[j] == users[1..][j - 1];
      match FirstMatch(users[1..], criteria)
      case None => None
      case Some(j) => Some(j + 1)
  }

  /**
   * `find_user_by(**criteria)`: an unknown attribute name is an `InvalidRequestError`, no
   * match is `NoResultFound`, and otherwise the first matching record in table order.
   */
  function Find(users: seq<User>, criteria: Kwargs): (r: Result<User, DbError>)
    ensures r == Failure(InvalidRequestError) <==> !KnownKeys(criteria)
    ensures r == Failure(NoResultFound) <==>
              KnownKeys(criteria) && forall j :: 0 <= j < |users| ==> !Matches(users[j], criteria)
    ensures r.Failure? ==> r.error != ValueError
    ensures r.Success? ==> KnownKeys(criteria) && Matches(r.value, criteria)
    ensures r.Success? ==>
              exists j :: 0 <= j < |users| && users[j] == r.value && forall i :: 0 <= i < j ==> !Matches(users[i], criteria)
  {
    if !KnownKeys(criteria) then Failure(InvalidRequestError)
    else match FirstMatch(users, criteria)
      case None => Failure(NoResultFound)
      case Some(j) => Success(users[j])
  }

  function ById(id: int): Kwargs
  {
    [("id", Int(id))]
  }

  lemma MatchesById(u: User, id: int)
    ensures KnownKeys(ById(id)) && (Matches(u, ById(id)) <==> u.id == id)
  {
    assert ById(id)[0] == ("id", Int(id));
    assert ColumnNamed("id") == Some(Id);
  }

  /** The primary key is the record's identity: no two records share an id. */
  predicate DistinctIds(users: seq<User>)
  {
    forall i, j :: 0 <= i < j < |users| ==> users[i].id != users[j].id
  }

  /** With distinct ids, a lookup by id finds the one record holding that id. */
  lemma FirstMatchById(users: seq<User>, i: nat)
    requires DistinctIds(users) && i < |users|
    ensures KnownKeys(ById(users[i].id)) && FirstMatch(users, ById(users[i].id)) == Some(i)
  {
    var id := users[i].id;
    MatchesById(users[i], id);
    forall j | 0 <= j < |users| && j != i
      ensures !Matches(users[j], ById(id))
    {
      MatchesById(users[j], id);
    }
  }

  /** The largest id in the table. */
  function MaxId(users: seq<User>): (m: int)
    requires users != []
    ensures forall j :: 0 <= j < |users| ==> users[j].id <= m
    ensures exists j :: 0 <= j < |users| && users[j].id == m
    decreases |users|
  {
    if |users| == 1 then users[0].id
    else
      var m := MaxId(users[1..]);
      assert forall j :: 1 <= j < |users| ==> users[j] == users[1..][j - 1];
      if users[0].id >= m then users[0].id else m
  }

  /** The id SQLite gives a new row of an INTEGER PRIMARY KEY table: 1 in an empty table, else one past the largest. */
  function NextId(users: seq<User>): (id: int)
    ensures forall j :: 0 <= j < |users| ==> users[j].id < id
    ensures users == [] ==> id == 1
    ensures users != [] ==> exists j :: 0 <= j < |users| && users[j].id == id - 1
  {
    if users == [] then 1 else MaxId(users) + 1
  }

  /** The position of the first keyword that names no column (`|kwargs|` when all do). */
  function KnownPrefix(kwargs: Kwargs): (n: nat)
    ensures n <= |kwargs| && KnownKeys(kwargs[..n])
    ensures forall k :: 0 <= k < n ==> ColumnNamed(kwargs[k].0).Some?
    ensures n < |kwargs| ==> ColumnNamed(kwargs[n].0).None?
    ensures n == |kwargs| <==> KnownKeys(kwargs)
    decreases |kwargs|
  {
    if kwargs == [] || ColumnNamed(kwargs[0].0).None? then 0
    else
      var n := KnownPrefix(kwargs[1..]);
      assert kwargs[..n + 1] == [kwargs[0]] + kwargs[1..][..n];
      assert forall k :: 1 <= k < |kwargs| ==> kwargs[k] == kwargs[1..][k - 1];
      1 + n
  }

  /** The column a known keyword names. */
  function ColumnOf(kwargs: Kwargs, k: nat): Column
    requires k < |kwargs| && ColumnNamed(kwargs[k].0).Some?
  {
    ColumnNamed(kwargs[k].0).value
  }

  /**
   * The `setattr` calls of `update_user` on one record, in keyword order: each named column
   * ends up holding its keyword's value and every column no keyword names keeps its value.
   */
  function Assign(u: User, kwargs: Kwargs): (r: User)
    requires KnownKeys(kwargs) && Typed(kwargs)
    ensures DistinctKeys(kwargs) ==> forall k :: 0 <= k < |kwargs| ==> Get(r, ColumnOf(kwargs, k)) == kwargs[k].1
    ensures forall c :: (forall k :: 0 <= k < |kwargs| ==> ColumnOf(kwargs, k) != c) ==> Get(r, c) == Get(u, c)
    decreases |kwargs|
  {
    if kwargs == [] then u
    else
      TailColumns(kwargs);
      Assign(Set(u, ColumnOf(kwargs, 0), kwargs[0].1), kwargs[1..])
  }

  /** The keywords after the first name the same columns, shifted by one; distinct names are distinct columns. */
  lemma TailColumns(kwargs: Kwargs)
    requires kwargs != [] && KnownKeys(kwargs)
    ensures KnownKeys(kwargs[1..]) && (Typed(kwargs) ==> Typed(kwargs[1..]))
    ensures forall k :: 0 <= k < |kwargs| - 1 ==> kwargs[1..][k] == kwargs[k + 1] && ColumnOf(kwargs[1..], k) == ColumnOf(kwargs, k + 1)
    ensures DistinctKeys(kwargs) ==>
              DistinctKeys(kwargs[1..]) && forall k :: 0 <= k < |kwargs| - 1 ==> ColumnOf(kwargs[1..], k) != ColumnOf(kwargs, 0)
  {
    assert forall k :: 1 <= k < |kwargs| ==> kwargs[k] == kwargs[1..][k - 1];
  }

  /** One more `setattr` after the others. */
  lemma AssignSnoc(u: User, kwargs: Kwargs, k: nat)
    requires k < |kwargs| && KnownKeys(kwargs[..k]) && ColumnNamed(kwargs[k].0).Some? && Typed(kwargs)
    ensures KnownKeys(kwargs[..k + 1]) && Typed(kwargs[..k]) && Typed(kwargs[..k + 1])
    ensures Assign(u, kwargs[..k + 1]) == Set(Assign(u, kwargs[..k]), ColumnOf(kwargs, k), kwargs[k].1)
  {
    assert kwargs[..k + 1] == kwargs[..k] + [kwargs[k]];
    assert forall i :: 0 <= i <= k ==> kwargs[..k + 1][i] == kwargs[i];
    AssignAppend(u, kwargs[..k], kwargs[k]);
  }

  /** The `setattr` calls for `p + [x]` are those for `p` followed by the one for `x`. */
  lemma {:induction false} AssignAppend(u: User, p: Kwargs, x: (string, Value))
    requires KnownKeys(p + [x]) && Typed(p + [x])
    ensures KnownKeys(p) && Typed(p) && ColumnNamed(x.0).Some? && Fits(ColumnNamed(x.0).value, x.1)
    ensures Assign(u, p + [x]) == Set(Assign(u, p), ColumnNamed(x.0).value, x.1)
    decreases |p|
  {
    var q := p + [x];
    assert forall i :: 0 <= i < |p| ==> q[i] == p[i];
    assert q[|p|] == x;
    if p == [] {
      assert q[1..] == [];
    } else {
      assert q[1..] == p[1..] + [x];
      TailColumns(q);
      TailColumns(p);
      AssignAppend(Set(u, ColumnOf(q, 0), q[0].1), p[1..], x);
    }
  }

  /**
   * `update_user(user_id, **kwargs)` on the table, with the error it raises: `ValueError`
   * when no record has the id (nothing changes), otherwise the first record with that id
   * takes the assignments up to the first unknown name, which persist in the session, and
   * the call fails with `ValueError` if there is such a name.
   */
  function Update(users: seq<User>, userId: int, kwargs: Kwargs): (r: (Result<(), DbError>, seq<User>))
    requires Typed(kwargs)
    ensures r.0.Failure? ==> r.0.error == ValueError
    ensures |r.1| == |users|
  {
    assert KnownKeys(ById(userId));
    match FirstMatch(users, ById(userId))
    case None => (Failure(ValueError), users)
    case Some(i) =>
      var n := KnownPrefix(kwargs);
      assert Typed(kwargs[..n]);
      (if n == |kwargs| then Success(()) else Failure(ValueError), users[i := Assign(users[i], kwargs[..n])])
  }

  lemma MatchesByIdAll(users: seq<User>, userId: int)
    ensures KnownKeys(ById(userId))
    ensures forall j :: 0 <= j < |users| ==> (Matches(users[j], ById(userId)) <==> users[j].id == userId)
  {
    forall j | 0 <= j < |users|
      ensures Matches(users[j], ById(userId)) <==> users[j].id == userId
    {
      MatchesById(users[j], userId);
    }
  }

  /** `update_user` with an id no record holds raises `ValueError` and changes nothing. */
  lemma UpdateUnknownId(users: seq<User>, userId: int, kwargs: Kwargs)
    requires Typed(kwargs)
    requires forall j :: 0 <= j < |users| ==> users[j].id != userId
    ensures Update(users, userId, kwargs) == (Failure(ValueError), users)
  {
    MatchesByIdAll(users, userId);
  }

  /** `update_user` succeeds exactly when some record has the id and every keyword names a column. */
  lemma UpdateSucceeds(users: seq<User>, userId: int, kwargs: Kwargs)
    requires Typed(kwargs)
    ensures Update(users, userId, kwargs).0.Success? <==>
              (exists j :: 0 <= j < |users| && users[j].id == userId) && KnownKeys(kwargs)
  {
    MatchesByIdAll(users, userId);
  }

  /** Only the first record with the id can change; the table keeps its length. */
  lemma UpdateFrame(users: seq<User>, userId: int, kwargs: Kwargs)
    requires Typed(kwargs)
    ensures |Update(users, userId, kwargs).1| == |users|
    ensures forall j :: 0 <= j < |users| && users[j] != Update(users, userId, kwargs).1[j] ==>
              users[j].id == userId && forall i :: 0 <= i < j ==> users[i].id != userId
  {
    MatchesByIdAll(users, userId);
  }

  /**
   * In the first record with the id, each column assigned before the first unknown name
   * holds its new value and every other column keeps its old one.
   */
  lemma UpdateAssigns(users: seq<User>, userId: int, kwargs: Kwargs, j: nat)
    requires Typed(kwargs) && DistinctKeys(kwargs)
    requires j < |users| && users[j].id == userId && forall i :: 0 <= i < j ==> users[i].id != userId
    ensures |Update(users, userId, kwargs).1| == |users|
    ensures forall k :: 0 <= k < KnownPrefix(kwargs) ==>
              Get(Update(users, userId, kwargs).1[j], ColumnOf(kwargs, k)) == kwargs[k].1
    ensures forall c :: (forall k :: 0 <= k < KnownPrefix(kwargs) ==> ColumnOf(kwargs, k) != c) ==>
              Get(Update(users, userId, kwargs).1[j], c) == Get(users[j], c)
  {
    var n := KnownPrefix(kwargs);
    UpdateAt(users, userId, kwargs, j);
    PrefixColumns(kwargs, n);
  }


  lemma PrefixColumns(kwargs: Kwargs, n: nat)
    requires n <= |kwargs| && KnownKeys(kwargs[..n])
    ensures forall k :: 0 <= k < n ==> kwargs[..n][k] == kwargs[k] && ColumnOf(kwargs[..n], k) == ColumnOf(kwargs, k)
    ensures DistinctKeys(kwargs) ==> DistinctKeys(kwargs[..n])
  {
  }

  /** The table `Update` leaves when some record holds the id: the first such record takes the known assignments. */
  lemma UpdateAt(users: seq<User>, userId: int, kwargs: Kwargs, j: nat)
    requires Typed(kwargs)
    requires j < |users| && users[j].id == userId && forall i :: 0 <= i < j ==> users[i].id != userId
    ensures KnownKeys(kwargs[..KnownPrefix(kwargs)]) && Typed(kwargs[..KnownPrefix(kwargs)])
    ensures Update(users, userId, kwargs).1 == users[j := Assign(users[j], kwargs[..KnownPrefix(kwargs)])]
  {
    MatchesByIdAll(users, userId);
    assert FirstMatch(users, ById(userId)) == Some(j);
    TypedPrefix(kwargs, KnownPrefix(kwargs));
  }

  lemma TypedPrefix(kwargs: Kwargs, n: nat)
    requires n <= |kwargs| && Typed(kwargs)
    ensures Typed(kwargs[..n])
  {
    assert forall k :: 0 <= k < n ==> kwargs[..n][k] == kwargs[k];
  }

  /**
   * `Update` once the record at `i` is found and the keywords before `k` are known: it stops
   * at `k`, with `ValueError` unless `k` is the end of the keywords.
   */
  lemma UpdateStopsAt(users: seq<User>, userId: int, kwargs: Kwargs, i: nat, k: nat)
    requires Typed(kwargs) && KnownKeys(ById(userId)) && FirstMatch(users, ById(userId)) == Some(i)
    requires k <= |kwargs| && KnownKeys(kwargs[..k]) && Typed(kwargs[..k])
    requires k < |kwargs| ==> ColumnNamed(kwargs[k].0).None?
    ensures Update(users, userId, kwargs) ==
              (if k == |kwargs| then Success(()) else Failure(ValueError), users[i := Assign(users[i], kwargs[..k])])
  {
    if k < |kwargs| {
      KnownPrefixAt(kwargs, k);
    } else {
      assert kwargs[..k] == kwargs;
    }
  }

  /** The first unknown keyword after a known prefix is where `KnownPrefix` stops. */
  lemma KnownPrefixAt(kwargs: Kwargs, k: nat)
    requires k < |kwargs| && KnownKeys(kwargs[..k]) && ColumnNamed(kwargs[k].0).None?
    ensures KnownPrefix(kwargs) == k
  {
    var n := KnownPrefix(kwargs);
    assert forall i :: 0 <= i < n ==> kwargs[..n][i] == kwargs[i];
    assert forall i :: 0 <= i < k ==> kwargs[..k][i] == kwargs[i];
  }

  /** An update that does not assign `id` keeps the ids distinct. */
  lemma UpdateKeepsIdsDistinct(users: seq<User>, userId: int, kwargs: Kwargs)
    requires DistinctIds(users) && Typed(kwargs)
    requires forall k :: 0 <= k < |kwargs| ==> kwargs[k].0 != "id"
    ensures DistinctIds(Update(users, userId, kwargs).1)
  {
    assert KnownKeys(ById(userId));
    var found := FirstMatch(users, ById(userId));
    if found.Some? {
      var n := KnownPrefix(kwargs);
      var prefix := kwargs[..n];
      assert forall k :: 0 <= k < n ==> prefix[k] == kwargs[k];
      assert forall k :: 0 <= k < n ==> ColumnOf(prefix, k) != Id;
      var i := found.value;
      assert Get(Assign(users[i], prefix), Id) == Get(users[i], Id);
    }
  }

  /**
   * No constraint keeps emails apart: `update_user` can give a record another record's email,
   * so only the check in `register_user` stands between the table and duplicate emails.
   */
  lemma EmailNotUnique(a: User, b: User)
    requires a.id != b.id
    ensures var after := Update([a, b], b.id, [("email", Str(a.email))]);
            after.0 == Success(()) && after.1[0] == a && after.1[1].email == a.email
  {
    var kwargs := [("email", Str(a.email))];
    assert ColumnNamed("email") == Some(Email);
    assert Typed(kwargs) && DistinctKeys(kwargs) && KnownKeys(kwargs);
    UpdateSucceeds([a, b], b.id, kwargs);
    UpdateFrame([a, b], b.id, kwargs);
    UpdateAssigns([a, b], b.id, kwargs, 1);
    assert KnownPrefix(kwargs) == 1 && ColumnOf(kwargs, 0) == Email;
  }

  /** The table itself: the records of the `users` table in insertion order. */
  class DB {
    var users: seq<User>

    predicate Valid()
      reads this
    {
      DistinctIds(users)
    }

    /** `DB()`: the table is dropped and created again, so it starts empty. */
    constructor ()
      ensures users == [] && Valid()
    {
      users := [];
    }

    /** `add_user`: one new record, with a fresh id and no session or reset token, after all the others. */
    method AddUser(email: string, hashedPassword: string) returns (u: User)
      requires Valid()
      modifies this
      ensures Valid()
      ensures u == NewUser(NextId(old(users)), email, hashedPassword)
      ensures users == old(users) + [u]
    {
      u := NewUser(NextId(users), email, hashedPassword);
      users := users + [u];
    }

    /** `find_user_by`: the lookup, which changes nothing. */
    method FindUserBy(criteria: Kwargs) returns (r: Result<User, DbError>)
      ensures r == Find(users, criteria)
    {
      r := Find(users, criteria);
    }

    /** `update_user`: the lookup by id, then one `setattr` per keyword until an unknown one. */
    method UpdateUser(userId: int, kwargs: Kwargs) returns (r: Result<(), DbError>)
      requires Typed(kwargs)
      modifies this
      ensures (r, users) == Update(old(users), userId, kwargs)
    {
      assert KnownKeys(ById(userId));
      var found := FirstMatch(users, ById(userId));
      if found.None? {
        return Failure(ValueError);
      }
      var i := found.value;
      assert kwargs[..0] == [];
      var k := 0;
      while k < |kwargs|
        invariant 0 <= k <= |kwargs| && i < |users|
        invariant KnownKeys(kwargs[..k]) && Typed(kwargs[..k])
        invariant users == old(users)[i := Assign(old(users)[i], kwargs[..k])]
      {
        var column := ColumnNamed(kwargs[k].0);
        if column.None? {
          UpdateStopsAt(old(users), userId, kwargs, i, k);
          return Failure(ValueError);
        }
        AssignSnoc(old(users)[i], kwargs, k);
        users := users[i := Set(users[i], column.value, kwargs[k].1)];
        k := k + 1;
      }
      UpdateStopsAt(old(users), userId, kwargs, i, k);
      return Success(());
    }


  }
}
