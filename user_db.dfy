/**
 * The users table of the user authentication service (0x03 `db.py`, with
 * rows shaped as in `user.py`): rows are appended by `add_user` and found
 * by `find_user_by`. The table is the sequence of its rows in insertion
 * order; ids come from an autoincrement counter.
 */
module UserDB {
  import opened Common

  /** A row of the `users` table. */
  datatype UserRow = UserRow(
    id: nat,
    email: string,
    hashedPassword: string,
    sessionId: Option<string>,
    resetToken: Option<string>)

  /** A value given to `find_user_by` or held in a column; `NullValue` is SQL NULL / Python None. */
  datatype FieldValue = IntValue(i: int) | StrValue(s: string) | NullValue

  /** The outcome of `find_user_by`: the row, or the exception it raises. */
  datatype FindResult = Found(row: UserRow) | NoResultFound | InvalidRequestError

  /** Whether a keyword names a column of `User`. */
  predicate IsColumn(name: string) {
    name in {"id", "email", "hashed_password", "session_id", "reset_token"}
  }

  function OptionalValue(v: Option<string>): FieldValue {
    if v.Some? then StrValue(v.value) else NullValue
  }

  /** The value of a named column of a row. */
  function ColumnValue(row: UserRow, name: string): (r: FieldValue)
    requires IsColumn(name)
    ensures name == "email" ==> r == StrValue(row.email)
  {
    if name == "id" then IntValue(row.id)
    else if name == "email" then StrValue(row.email)
    else if name == "hashed_password" then StrValue(row.hashedPassword)
    else if name == "session_id" then OptionalValue(row.sessionId)
    else OptionalValue(row.resetToken)
  }

  /**
   * Whether a row satisfies `(col, ...) IN ((val, ...))`: every named column
   * equals its value, and a NULL on either side never compares equal.
   */
  predicate Matches(row: UserRow, filters: seq<(string, FieldValue)>)
    requires forall k :: 0 <= k < |filters| ==> IsColumn(filters[k].0)
  {
    forall k :: 0 <= k < |filters| ==>
      filters[k].1 != NullValue && ColumnValue(row, filters[k].0) == filters[k].1
  }

  /** A lookup by e-mail alone matches exactly the rows with that e-mail. */
  lemma EmailFilterMatches(row: UserRow, email: string)
    ensures Matches(row, [("email", StrValue(email))]) <==> row.email == email
  {
    var filters := [("email", StrValue(email))];
    assert filters[0] == ("email", StrValue(email));
  }

  /** A NULL in the filter matches no row, not even rows whose column is NULL. */
  lemma NullNeverMatches(row: UserRow, filters: seq<(string, FieldValue)>, k: nat)
    requires forall j :: 0 <= j < |filters| ==> IsColumn(filters[j].0)
    requires k < |filters| && filters[k].1 == NullValue
    ensures !Matches(row, filters)
  {
  }

  /** Ids strictly increase along the table and stay below the next id to be issued. */
  ghost predicate IdsIncreasing(users: seq<UserRow>, nextId: nat) {
    (forall i, j :: 0 <= i < j < |users| ==> users[i].id < users[j].id) &&
    (forall i :: 0 <= i < |users| ==> users[i].id < nextId)
  }

  /** Increasing ids are pairwise distinct, as the primary key requires. */
  lemma IdsDistinct(users: seq<UserRow>, nextId: nat, i: nat, j: nat)
    requires IdsIncreasing(users, nextId)
    requires i < |users| && j < |users| && i != j
    ensures users[i].id != users[j].id
  {
    if i > j {
      assert users[j].id < users[i].id;
    }
  }

  /**
   * `find_user_by` as written: its only parameter is `email`, but the loop
   * iterates `kwargs`, which is undefined, so every call raises NameError
   * (None here) before touching the table.
   */
  function FindUserByAsWritten(users: seq<UserRow>, email: Option<string>): (r: Option<FindResult>)
    ensures r.None?
  {
    None
  }

  /** As written, even a stored user's own e-mail does not find it. */
  lemma AsWrittenMissesStoredUser(users: seq<UserRow>, i: nat)
    requires i < |users|
    ensures FindUserByAsWritten(users, Some(users[i].email)) != Some(Found(users[i]))
  {
  }

  class DB {
    var users: seq<UserRow>
    var nextId: nat

    ghost predicate Valid()
      reads this
    {
      IdsIncreasing(users, nextId)
    }

    /** `__init__`: drops and recreates the table, so it starts empty. */
    constructor()
      ensures Valid()
      ensures users == []
    {
      users := [];
      nextId := 1;
    }

    /** `add_user`: appends and returns a new row with a fresh id and NULL session and reset token. */
    method AddUser(email: string, hashedPassword: string) returns (user: UserRow)
      requires Valid()
      modifies this
      ensures Valid()
      ensures users == old(users) + [user]
      ensures user.email == email && user.hashedPassword == hashedPassword
      ensures user.sessionId.None? && user.resetToken.None?
      ensures forall i :: 0 <= i < |old(users)| ==> old(users)[i].id != user.id
    {
      user := UserRow(nextId, email, hashedPassword, None, None);
      users := users + [user];
      nextId := nextId + 1;
    }

    /**
     * `find_user_by(**filters)`: InvalidRequestError if a keyword is not a
     * column, otherwise the first row matching every filter, or
     * NoResultFound. The table is only read.
     */
    method FindUserBy(filters: seq<(string, FieldValue)>) returns (r: FindResult)
      ensures r.InvalidRequestError? <==> exists k :: 0 <= k < |filters| && !IsColumn(filters[k].0)
      ensures r.Found? ==>
        (forall k :: 0 <= k < |filters| ==> IsColumn(filters[k].0)) &&
        exists i :: 0 <= i < |users| && users[i] == r.row && Matches(users[i], filters) &&
          forall j :: 0 <= j < i ==> !Matches(users[j], filters)
      ensures r.NoResultFound? <==>
        (forall k :: 0 <= k < |filters| ==> IsColumn(filters[k].0)) &&
        forall i :: 0 <= i < |users| ==> !Matches(users[i], filters)
    {
      for k := 0 to |filters|
        invariant forall j :: 0 <= j < k ==> IsColumn(filters[j].0)
      {
        if !IsColumn(filters[k].0) {
          return InvalidRequestError;
        }
      }
      for i := 0 to |users|
        invariant forall j :: 0 <= j < i ==> !Matches(users[j], filters)
      {
        if Matches(users[i], filters) {
          return Found(users[i]);
        }
      }
      return NoResultFound;
    }
  }
}
