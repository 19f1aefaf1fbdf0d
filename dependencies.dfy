/**
 * `validate_user`, the dependency every message route uses to turn HTTP
 * Basic credentials into a user id.
 */
module Dependencies {

  import opened Outcomes
  import opened Sql
  import opened Conditions
  import opened Store
  import opened Http

  const Unauthorized := Raised(401, "Invalid credentials or inactive account!", map["WWW-Authenticate" := "Basic"])

  /** The columns `validate_user` reads from a user's row. */
  const Credentials: seq<string> := ["id", "password", "active"]

  /**
   * Whom the credentials authenticate: the first user row with that email,
   * when it is active and the password verifies against its stored hash.
   */
  function Authenticated(users: seq<Row>, username: string, password: string,
                         verify: (string, Value) -> bool): (r: Option<Value>)
    ensures r.Some? ==> exists x :: x in users && Lookup(x, "email") == Str(username)
                                    && Truthy(Lookup(x, "active")) && verify(password, Lookup(x, "password"))
                                    && r.value == Lookup(x, "id")
  {
    CredentialsFound(users, username);
    match FirstMatch(users, Credentials, [("email", Str(username))])
    case None => None
    case Some(user) =>
      if Truthy(Lookup(user, "active")) && verify(password, Lookup(user, "password")) then Some(Lookup(user, "id"))
      else None
  }

  /** The row `get_one` finds by email is the selected columns of a user row with that email. */
  lemma CredentialsFound(users: seq<Row>, username: string)
    ensures var m := FirstMatch(users, Credentials, [("email", Str(username))]);
            m.Some? ==> exists x :: x in users && Lookup(x, "email") == Str(username)
                                    && Lookup(m.value, "active") == Lookup(x, "active")
                                    && Lookup(m.value, "password") == Lookup(x, "password")
                                    && Lookup(m.value, "id") == Lookup(x, "id")
  {
    var where := [("email", Str(username))];
    FirstMatchMeaning(users, Credentials, where);
    var m := FirstMatch(users, Credentials, where);
    if m.Some? {
      var x :| x in users && AllEqual(where, x) && m.value == Project(x, Credentials);
      assert Equal(where[0], x);
      assert Lookup(m.value, "active") == Lookup(x, "active") && Lookup(m.value, "password") == Lookup(x, "password");
      assert Lookup(m.value, "id") == Lookup(x, "id");
    }
  }

  /**
   * With emails unique, the credentials name the one row with that email:
   * they yield its id when it is active and the password verifies against
   * its stored hash, and nothing otherwise.
   */
  lemma AuthenticatedRow(users: seq<Row>, unique: set<string>, password: string,
                         verify: (string, Value) -> bool, x: Row)
    requires UniqueHolds(users, unique) && "email" in unique
    requires x in users && Lookup(x, "email").Str?
    ensures Authenticated(users, Lookup(x, "email").s, password, verify) ==
              if Truthy(Lookup(x, "active")) && verify(password, Lookup(x, "password")) then Some(Lookup(x, "id")) else None
  {
    FirstMatchUnique(users, Credentials, unique, "email", x);
    var m := Project(x, Credentials);
    assert Lookup(m, "active") == Lookup(x, "active") && Lookup(m, "password") == Lookup(x, "password");
    assert Lookup(m, "id") == Lookup(x, "id");
  }

  /**
   * With emails unique, the credentials authenticate someone exactly when
   * the row with that email is active and holds a hash the password
   * verifies against.
   */
  lemma AuthenticatedMeaning(users: seq<Row>, unique: set<string>, username: string, password: string,
                             verify: (string, Value) -> bool)
    requires UniqueHolds(users, unique) && "email" in unique
    ensures Authenticated(users, username, password, verify).Some? <==>
              exists x :: x in users && Lookup(x, "email") == Str(username)
                          && Truthy(Lookup(x, "active")) && verify(password, Lookup(x, "password"))
  {
    var where := [("email", Str(username))];
    FirstMatchMeaning(users, Credentials, where);
    if FirstMatch(users, Credentials, where).Some? {
      var y :| y in users && AllEqual(where, y) && FirstMatch(users, Credentials, where).value == Project(y, Credentials);
      assert Equal(where[0], y);
      AuthenticatedRow(users, unique, password, verify, y);
    }
    if exists x :: x in users && Lookup(x, "email") == Str(username)
                   && Truthy(Lookup(x, "active")) && verify(password, Lookup(x, "password")) {
      var x :| x in users && Lookup(x, "email") == Str(username)
               && Truthy(Lookup(x, "active")) && verify(password, Lookup(x, "password"));
      AuthenticatedRow(users, unique, password, verify, x);
    }
  }

  /** An inactive account is refused whatever the password. */
  lemma InactiveRefused(users: seq<Row>, unique: set<string>, username: string, password: string,
                        verify: (string, Value) -> bool, x: Row)
    requires UniqueHolds(users, unique) && "email" in unique
    requires x in users && Lookup(x, "email") == Str(username) && !Truthy(Lookup(x, "active"))
    ensures Authenticated(users, username, password, verify) == None
  {
    AuthenticatedRow(users, unique, password, verify, x);
  }

  /**
   * `validate_user`: the id of the user the credentials authenticate, or a
   * 401 challenge. `verify` stands for `verify_psw`, the bcrypt check.
   */
  method ValidateUser(db: Database, username: string, password: string, verify: (string, Value) -> bool)
    returns (r: Result<Value, Response>)
    modifies db
    ensures db.tables == old(db.tables) && db.serial == old(db.serial)
    ensures db.log == old(db.log) + [GetCall("users", Credentials, Some(1), [("email", Str(username))], [], [])]
    ensures r == if "users" !in db.tables then Failure(Crashed(Database(UndefinedTable)))
                 else match Authenticated(db.tables["users"], username, password, verify)
                      case None => Failure(Unauthorized)
                      case Some(id) => Success(id)
  {
    var found := db.GetOne("users", Credentials, [("email", Str(username))]);
    if found.Failure? {
      return Failure(Crashed(Database(found.error)));
    }
    match found.value
    case None =>
      r := Failure(Unauthorized);
    case Some(user) =>
      if Truthy(Lookup(user, "active")) && verify(password, Lookup(user, "password")) {
        r := Success(Lookup(user, "id"));
      } else {
        r := Failure(Unauthorized);
      }
  }
}
