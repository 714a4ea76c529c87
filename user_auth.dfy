/**
 * `Auth` of the user authentication service (0x03 `auth.py`): registration
 * of a new user with a hashed password, refused when the e-mail is taken.
 * The password hash (bcrypt with a fresh salt) is a parameter.
 */
module UserAuth {
  import opened Common
  import opened UserDB

  /** The outcome of `register_user`: the new row, or the `ValueError` it raises. */
  datatype RegisterResult = Registered(user: UserRow) | ValueError(message: string)

  /** No two rows share an e-mail. */
  ghost predicate EmailsUnique(users: seq<UserRow>) {
    forall i, j :: 0 <= i < j < |users| ==> users[i].email != users[j].email
  }

  /** Appending a row whose e-mail is new keeps e-mails unique. */
  lemma AppendNewEmailKeepsUnique(users: seq<UserRow>, row: UserRow)
    requires EmailsUnique(users)
    requires forall i :: 0 <= i < |users| ==> users[i].email != row.email
    ensures EmailsUnique(users + [row])
  {
    var extended := users + [row];
    forall i, j | 0 <= i < j < |extended|
      ensures extended[i].email != extended[j].email
    {
      if j == |users| {
        assert extended[i] == users[i];
      } else {
        assert extended[i] == users[i] && extended[j] == users[j];
      }
    }
  }

  class Auth {
    const db: DB

    constructor()
      ensures fresh(db) && db.Valid() && db.users == []
    {
      db := new DB();
    }

    /**
     * `register_user`: looks the e-mail up; when no row has it, adds one
     * holding `hashPassword(password)` and returns it, otherwise fails with
     * "User <email> already exists" and leaves the table as it was.
     */
    method RegisterUser(email: string, password: string, hashPassword: string -> string) returns (r: RegisterResult)
      requires db.Valid()
      modifies db
      ensures db.Valid()
      ensures (exists i :: 0 <= i < |old(db.users)| && old(db.users)[i].email == email) ==>
        r == ValueError("User " + email + " already exists") && db.users == old(db.users)
      ensures (forall i :: 0 <= i < |old(db.users)| ==> old(db.users)[i].email != email) ==>
        r.Registered? && db.users == old(db.users) + [r.user] &&
        r.user.email == email && r.user.hashedPassword == hashPassword(password)
      ensures EmailsUnique(old(db.users)) ==> EmailsUnique(db.users)
      ensures r.Registered? ==> exists i :: 0 <= i < |db.users| && Matches(db.users[i], [("email", StrValue(email))])
    {
      var filters := [("email", StrValue(email))];
      var found := db.FindUserBy(filters);
      forall i | 0 <= i < |db.users|
        ensures Matches(db.users[i], filters) <==> db.users[i].email == email
      {
        EmailFilterMatches(db.users[i], email);
      }
      if found.NoResultFound? {
        var user := db.AddUser(email, hashPassword(password));
        if EmailsUnique(old(db.users)) {
          AppendNewEmailKeepsUnique(old(db.users), user);
        }
        EmailFilterMatches(user, email);
        assert db.users[|db.users| - 1] == user;
        return Registered(user);
      }
      assert found.Found?;
      return ValueError("User " + email + " already exists");
    }
  }
}
