/**
 * The account routes of routers/accounts.py: registration, which stores the
 * user and an activation token and mails the activation link, and
 * activation by that token.
 */
module Accounts {

  import opened Outcomes
  import opened Sql
  import opened Conditions
  import opened Store
  import opened Http
  import opened Dependencies

  /** `{'id': user_id}`: the user with that id. */
  function UserById(user: Value): seq<Pair>
  {
    [("id", user)]
  }

  /** `{'token': token}`: the token's row. */
  function ByToken(token: string): seq<Pair>
  {
    [("token", Str(token))]
  }

  /** The columns of a token row; `register` writes them and `activate` reads them. */
  const TokenColumns: seq<string> := ["token", "user_id"]

  /** The assignments `activate` makes: the literals `'true'` and `'now()'`, as the handler passes them. */
  const Activation: map<string, Value> := map["active" := Str("true"), "activated_at" := Str("now()")]

  /** The user a token was issued to, by the first token row holding it. */
  function Holder(tokens: seq<Row>, token: string): Option<Value>
  {
    match FirstMatch(tokens, TokenColumns, ByToken(token))
    case None => None
    case Some(t) => Some(Lookup(t, "user_id"))
  }

  /**
   * Whom `activate` activates, or the response that stops it: an unknown
   * token is refused, a token whose user is gone makes `.get` fail on None,
   * and an active user is refused.
   */
  function ActivationTarget(tokens: seq<Row>, users: seq<Row>, token: string): (r: Result<Value, Response>)
    ensures r.Success? ==> Holder(tokens, token) == Some(r.value)
    ensures r.Failure? ==> r.error == Refuse(403, "Invalid token!") || r.error == Crashed(NoneHasNoGet)
                           || r.error == Refuse(403, "This user has been already activated!")
  {
    match Holder(tokens, token)
    case None => Failure(Refuse(403, "Invalid token!"))
    case Some(user) =>
      match FirstMatch(users, ["active"], UserById(user))
      case None => Failure(Crashed(NoneHasNoGet))
      case Some(u) =>
        if Truthy(Lookup(u, "active")) then Failure(Refuse(403, "This user has been already activated!"))
        else Success(user)
  }

  /** The lookup of the token's row. */
  function TokenLookup(token: string): Call
  {
    GetCall("tokens", TokenColumns, Some(1), ByToken(token), [], [])
  }

  /** The lookup of the token holder's activity flag. */
  function ActiveLookup(user: Value): Call
  {
    GetCall("users", ["active"], Some(1), UserById(user), [], [])
  }

  /** The statements `activate` sends before updating: the token, then its holder when there is one. */
  function ActivationLookups(tokens: seq<Row>, token: string): seq<Call>
  {
    match Holder(tokens, token)
    case None => [TokenLookup(token)]
    case Some(user) => [TokenLookup(token), ActiveLookup(user)]
  }

  /** The lookups `activate` makes before updating. */
  method ActivationChecks(db: Database, token: string) returns (target: Result<Value, Response>)
    modifies db
    ensures db.tables == old(db.tables) && db.serial == old(db.serial)
    ensures "tokens" !in db.tables ==> target == Failure(Crashed(Database(UndefinedTable)))
    ensures "users" !in db.tables ==> target.Failure?
    ensures target.Failure? ==> !target.error.Reply?
    ensures "tokens" in db.tables && "users" in db.tables ==>
              target == ActivationTarget(db.tables["tokens"], db.tables["users"], token)
    ensures db.log == old(db.log) + ActivationLookups(db.Rows("tokens"), token)
  {
    var found := db.GetOne("tokens", TokenColumns, ByToken(token));
    if found.Failure? {
      return Failure(Crashed(Database(found.error)));
    }
    if found.value.None? {
      return Failure(Refuse(403, "Invalid token!"));
    }
    var user := Lookup(found.value.value, "user_id");
    var active := db.GetOne("users", ["active"], UserById(user));
    if active.Failure? {
      return Failure(Crashed(Database(active.error)));
    }
    if active.value.None? {
      return Failure(Crashed(NoneHasNoGet));
    }
    if Truthy(Lookup(active.value.value, "active")) {
      return Failure(Refuse(403, "This user has been already activated!"));
    }
    target := Success(user);
  }

  /** `activate`: mark the token's user active and return how many rows that updated. */
  method Activate(db: Database, token: string) returns (r: Response)
    modifies db
    ensures db.serial == old(db.serial)
    ensures !r.Reply? ==> db.tables == old(db.tables) && db.log == old(db.log) + ActivationLookups(old(db.Rows("tokens")), token)
    ensures "tokens" !in old(db.tables) ==> r == Crashed(Database(UndefinedTable))
    ensures "users" !in old(db.tables) ==> !r.Reply?
    ensures "tokens" in old(db.tables) && "users" in old(db.tables) ==>
              match ActivationTarget(old(db.tables["tokens"]), old(db.tables["users"]), token)
              case Failure(stop) => r == stop
              case Success(user) =>
                && db.log == old(db.log) + [TokenLookup(token), ActiveLookup(user),
                                            UpdateCall("users", ["active", "activated_at"], [Str("true"), Str("now()")], UserById(user))]
                && db.tables == old(db.tables)["users" := Updated(old(db.tables["users"]), UserById(user), Activation)]
                && r == Reply(200, Fields(map["Activated users" := Int(CountMatching(old(db.tables["users"]), UserById(user)))]))
    ensures old(db.Valid()) && db.UniqueOf("users") !! {"active", "activated_at"} ==> db.Valid()
  {
    ghost var tokens := db.Rows("tokens");
    var target := ActivationChecks(db, token);
    if target.Failure? {
      return target.error;
    }
    assert ActivationLookups(tokens, token) == [TokenLookup(token), ActiveLookup(target.value)];
    r := MarkActive(db, target.value);
  }

  /** The update `activate` makes once the checks pass: the user's flag and activation time. */
  method MarkActive(db: Database, user: Value) returns (r: Response)
    requires "users" in db.tables
    modifies db
    ensures db.serial == old(db.serial)
    ensures db.log == old(db.log) + [UpdateCall("users", ["active", "activated_at"], [Str("true"), Str("now()")], UserById(user))]
    ensures db.tables == old(db.tables)["users" := Updated(old(db.tables["users"]), UserById(user), Activation)]
    ensures r == Reply(200, Fields(map["Activated users" := Int(CountMatching(old(db.tables["users"]), UserById(user)))]))
    ensures old(db.Valid()) && db.UniqueOf("users") !! {"active", "activated_at"} ==> db.Valid()
  {
    ZipTwo("active", "activated_at", Str("true"), Str("now()"));
    var n := db.Update("users", ["active", "activated_at"], [Str("true"), Str("now()")], UserById(user));
    match n
    case Failure(e) =>
      r := Crashed(Database(e));
    case Success(count) =>
      r := Reply(200, Fields(map["Activated users" := Int(count)]));
  }

  /** An activated row holds the `'true'` flag and keeps every column but the two assigned. */
  lemma ActivatedRow(x: Row)
    ensures Activation.Keys == {"active", "activated_at"}
    ensures Truthy(Lookup(x + Activation, "active"))
    ensures forall c :: c != "active" && c != "activated_at" ==> Lookup(x + Activation, c) == Lookup(x, c)
  {
  }

  /** After activation, looking the user up by id finds the activated row, whose flag is truthy. */
  lemma ActivatedFound(users: seq<Row>, user: Value, x: Row)
    requires UniqueHolds(users, {"id"})
    requires x in users && Lookup(x, "id") == user && user != Null
    ensures var found := FirstMatch(Updated(users, UserById(user), Activation), ["active"], UserById(user));
            found.Some? && Truthy(Lookup(found.value, "active"))
  {
    var out := Updated(users, UserById(user), Activation);
    var y := x + Activation;
    ActivatedRow(x);
    assert AllEqual(UserById(user), x) by {
      assert Equal(UserById(user)[0], x);
    }
    UpdatedKeepsUnique(users, UserById(user), Activation, {"id"});
    UpdatedRowIn(users, UserById(user), Activation, x);
    FirstMatchUnique(out, ["active"], {"id"}, "id", y);
    assert Lookup(Project(y, ["active"]), "active") == Lookup(y, "active");
  }

  /**
   * Activate twice: with user ids unique, once a token's user is activated
   * the same token is refused as already used.
   */
  lemma ActivateOnce(tokens: seq<Row>, users: seq<Row>, token: string, user: Value)
    requires UniqueHolds(users, {"id"})
    requires ActivationTarget(tokens, users, token) == Success(user)
    ensures ActivationTarget(tokens, Updated(users, UserById(user), Activation), token) ==
              Failure(Refuse(403, "This user has been already activated!"))
  {
    assert Holder(tokens, token) == Some(user);
    FirstMatchMeaning(users, ["active"], UserById(user));
    var x :| x in users && AllEqual(UserById(user), x);
    assert Equal(UserById(user)[0], x);
    ActivatedFound(users, user, x);
  }

  /**
   * Activate, then log in: with emails and ids unique, once the user is
   * activated the credentials authenticate them exactly when the password
   * verifies against the stored hash.
   */
  lemma ActivateThenLogIn(users: seq<Row>, user: Value, x: Row, password: string, verify: (string, Value) -> bool)
    requires UniqueHolds(users, {"id", "email"})
    requires x in users && Lookup(x, "id") == user && user != Null && Lookup(x, "email").Str?
    ensures Authenticated(Updated(users, UserById(user), Activation), Lookup(x, "email").s, password, verify) ==
              if verify(password, Lookup(x, "password")) then Some(user) else None
  {
    var out := Updated(users, UserById(user), Activation);
    ActivatedRow(x);
    UpdatedKeepsUnique(users, UserById(user), Activation, {"id", "email"});
    assert Equal(UserById(user)[0], x);
    UpdatedRowIn(users, UserById(user), Activation, x);
    AuthenticatedRow(out, {"id", "email"}, password, verify, x + Activation);
  }

  // ------------------------------------------------------------ registration

  /** The columns `register` fills in the users table. */
  const Registration: seq<string> := ["email", "password"]

  const Welcome := "You have successfully registered! Please activate your account by clicking on the link sent to your email."

  /** `f"{req.base_url}activate?token={user_token}"`. */
  function ActivationUrl(baseUrl: string, token: string): string
  {
    baseUrl + "activate?token=" + token
  }

  /** How `register` answers a database error: a unique violation is a 406, anything else a server error. */
  function Failed(e: DbError): Response
  {
    if e == UniqueViolation then Refuse(406, "A user by this email is already registered!")
    else Crashed(Database(e))
  }

  /** The insert of the new user. */
  function UserWrite(email: string, hashed: string): Call
  {
    WriteCall("users", Registration, [Str(email), Str(hashed)])
  }

  /** The insert of the activation token issued to the new user's id. */
  function TokenWrite(token: string, id: Value): Call
  {
    WriteCall("tokens", TokenColumns, [Str(token), id])
  }

  /**
   * The two inserts of `register`: the user, then the activation token
   * issued to the new id. A failed insert stops the sequence; the user row
   * stays when the token insert fails, as `write` commits each insert.
   */
  method WriteAccount(db: Database, email: string, hashed: string, token: string) returns (r: Result<Value, DbError>)
    modifies db
    ensures "users" !in old(db.tables) ==>
              && r == Failure(UndefinedTable) && db.tables == old(db.tables) && db.serial == old(db.serial)
              && db.log == old(db.log) + [UserWrite(email, hashed)]
    ensures "tokens" !in old(db.tables) ==> r.Failure?
    ensures "users" in old(db.tables) ==>
              var u := Inserting(old(db.tables["users"]), old(db.LastId("users")), db.DefaultsOf("users"),
                                 db.UniqueOf("users"), Registration, [Str(email), Str(hashed)]);
              match u.result
              case Failure(e) =>
                && r == Failure(e) && db.tables == old(db.tables) && db.serial == old(db.serial)["users" := u.last]
                && db.log == old(db.log) + [UserWrite(email, hashed)]
              case Success(id) =>
                && db.log == old(db.log) + [UserWrite(email, hashed), TokenWrite(token, id)]
                && if "tokens" !in old(db.tables) then
                     && r == Failure(UndefinedTable) && db.tables == old(db.tables)["users" := u.rows]
                     && db.serial == old(db.serial)["users" := u.last]
                   else
                     var t := Inserting(old(db.tables["tokens"]), old(db.LastId("tokens")), db.DefaultsOf("tokens"),
                                        db.UniqueOf("tokens"), TokenColumns, [Str(token), id]);
                     && db.tables == old(db.tables)["users" := u.rows]["tokens" := t.rows]
                     && db.serial == old(db.serial)["users" := u.last]["tokens" := t.last]
                     && r == match t.result case Failure(e) => Failure(e) case Success(_) => Success(id)
    ensures old(db.Valid()) ==> db.Valid()
  {
    InsertingFailureKeeps(db.Rows("users"), db.LastId("users"), db.DefaultsOf("users"), db.UniqueOf("users"),
                          Registration, [Str(email), Str(hashed)]);
    var id := db.Write("users", Registration, [Str(email), Str(hashed)]);
    if id.Failure? {
      return Failure(id.error);
    }
    var written := db.Write("tokens", TokenColumns, [Str(token), id.value]);
    if written.Failure? {
      return Failure(written.error);
    }
    r := id;
  }

  /**
   * `register`. `email` is the address `User` validation accepted (pydantic's
   * `EmailStr`), or None when that validation fails (a malformed address, or no password); `hashed` is what
   * `get_psw_hash` returns for the password; `token` is the fresh uuid4;
   * `baseUrl` is the request's base URL; `delivered` says whether
   * `prep_and_send` managed to send the mail. `mail` is the (recipient,
   * activation link) pair handed to `prep_and_send`, if it was called.
   */
  method Register(db: Database, email: Option<string>, hashed: string, token: string, baseUrl: string, delivered: bool)
    returns (r: Response, mail: Option<(string, string)>)
    modifies db
    ensures email.None? ==>
              && r == Refuse(400, "Email is not valid!") && mail.None?
              && db.tables == old(db.tables) && db.serial == old(db.serial) && db.log == old(db.log)
    ensures email.Some? && "users" !in old(db.tables) ==>
              && r == Crashed(Database(UndefinedTable)) && mail.None? && db.tables == old(db.tables) && db.serial == old(db.serial)
              && db.log == old(db.log) + [UserWrite(email.value, hashed)]
    ensures "tokens" !in old(db.tables) ==> mail.None? && !r.Reply?
    ensures email.Some? && "users" in old(db.tables) ==>
              var u := Inserting(old(db.tables["users"]), old(db.LastId("users")), db.DefaultsOf("users"),
                                 db.UniqueOf("users"), Registration, [Str(email.value), Str(hashed)]);
              match u.result
              case Failure(e) =>
                && r == Failed(e) && mail.None? && db.tables == old(db.tables) && db.serial == old(db.serial)["users" := u.last]
                && db.log == old(db.log) + [UserWrite(email.value, hashed)]
              case Success(id) =>
                && db.log == old(db.log) + [UserWrite(email.value, hashed), TokenWrite(token, id)]
                && if "tokens" !in old(db.tables) then
                     && r == Crashed(Database(UndefinedTable)) && mail.None?
                     && db.tables == old(db.tables)["users" := u.rows] && db.serial == old(db.serial)["users" := u.last]
                   else
                     var t := Inserting(old(db.tables["tokens"]), old(db.LastId("tokens")), db.DefaultsOf("tokens"),
                                        db.UniqueOf("tokens"), TokenColumns, [Str(token), id]);
                     && db.tables == old(db.tables)["users" := u.rows]["tokens" := t.rows]
                     && db.serial == old(db.serial)["users" := u.last]["tokens" := t.last]
                     && (t.result.Failure? ==> r == Failed(t.result.error) && mail.None?)
                     && (t.result.Success? ==>
                           && mail == Some((email.value, ActivationUrl(baseUrl, token)))
                           && r == if delivered then Reply(201, Fields(map["status" := Str(Welcome)]))
                                   else Refuse(500, "Unable to send email. Your activation URL is " + ActivationUrl(baseUrl, token)))
    ensures old(db.Valid()) ==> db.Valid()
  {
    if email.None? {
      return Refuse(400, "Email is not valid!"), None;
    }
    var written := WriteAccount(db, email.value, hashed, token);
    if written.Failure? {
      return Failed(written.error), None;
    }
    var url := ActivationUrl(baseUrl, token);
    mail := Some((email.value, url));
    if !delivered {
      r := Refuse(500, "Unable to send email. Your activation URL is " + url);
      return;
    }
    r := Reply(201, Fields(map["status" := Str(Welcome)]));
  }

  /** The user row `register` inserts: the address, the hash, and the table's default activity flag. */
  lemma RegisteredRow(defaults: Row, email: string, hashed: string, n: nat)
    ensures var row := NewRow(defaults, Registration, [Str(email), Str(hashed)], n);
            && Lookup(row, "email") == Str(email) && Lookup(row, "password") == Str(hashed)
            && Lookup(row, "active") == Lookup(defaults, "active")
  {
    NewRowHolds(defaults, Registration, [Str(email), Str(hashed)], n);
    assert Registration[0] == "email" && Registration[1] == "password" && "active" !in Registration;
  }

  /** The token row `register` inserts: the token and the new user's id. */
  lemma TokenRow(defaults: Row, token: string, user: Value, n: nat)
    ensures var row := NewRow(defaults, TokenColumns, [Str(token), user], n);
            Lookup(row, "token") == Str(token) && Lookup(row, "user_id") == user
  {
    NewRowHolds(defaults, TokenColumns, [Str(token), user], n);
    assert TokenColumns[0] == "token" && TokenColumns[1] == "user_id";
  }

  /** Registering an address some user already has is refused (406) when emails are unique. */
  lemma DuplicateEmailRefused(users: seq<Row>, last: nat, defaults: Row, unique: set<string>,
                              email: string, hashed: string, x: Row)
    requires "email" in unique && x in users && Lookup(x, "email") == Str(email)
    ensures var u := Inserting(users, last, defaults, unique, Registration, [Str(email), Str(hashed)]);
            u.result == Failure(UniqueViolation) && u.rows == users
            && Failed(u.result.error) == Refuse(406, "A user by this email is already registered!")
  {
    assert Insertable(Registration, [Str(email), Str(hashed)]);
    DuplicateRefused(users, last, defaults, unique, Registration, [Str(email), Str(hashed)], 0, x);
  }

  /**
   * A new account cannot log in before activation, whatever the password,
   * when the users table's `active` column defaults to a falsy value.
   */
  lemma RegisteredInactive(users: seq<Row>, last: nat, defaults: Row, unique: set<string>,
                           email: string, hashed: string, password: string, verify: (string, Value) -> bool)
    requires TableValid(users, last, unique) && "email" in unique && !Truthy(Lookup(defaults, "active"))
    ensures var u := Inserting(users, last, defaults, unique, Registration, [Str(email), Str(hashed)]);
            u.result.Success? ==> Authenticated(u.rows, email, password, verify) == None
  {
    var u := Inserting(users, last, defaults, unique, Registration, [Str(email), Str(hashed)]);
    if u.result.Success? {
      InsertedRow(users, last, defaults, unique, Registration, [Str(email), Str(hashed)]);
      RegisteredRow(defaults, email, hashed, last + 1);
      AuthenticatedRow(u.rows, unique + {"id"}, password, verify, NewRow(defaults, Registration, [Str(email), Str(hashed)], last + 1));
    }
  }

  /** The token `register` stores names the new user, when tokens are unique. */
  lemma TokenHeld(tokens: seq<Row>, last: nat, defaults: Row, unique: set<string>, token: string, user: Value)
    requires TableValid(tokens, last, unique) && "token" in unique
    ensures var t := Inserting(tokens, last, defaults, unique, TokenColumns, [Str(token), user]);
            t.result.Success? ==> Holder(t.rows, token) == Some(user)
  {
    var t := Inserting(tokens, last, defaults, unique, TokenColumns, [Str(token), user]);
    if t.result.Success? {
      var row := NewRow(defaults, TokenColumns, [Str(token), user], last + 1);
      InsertedRow(tokens, last, defaults, unique, TokenColumns, [Str(token), user]);
      TokenRow(defaults, token, user, last + 1);
      FirstMatchUnique(t.rows, TokenColumns, unique + {"id"}, "token", row);
      assert Lookup(Project(row, TokenColumns), "user_id") == user;
    }
  }

  /** Looked up by its new id, the user `register` inserts carries the default activity flag. */
  lemma NewUserFound(users: seq<Row>, last: nat, defaults: Row, unique: set<string>, email: string, hashed: string)
    requires TableValid(users, last, unique)
    ensures var u := Inserting(users, last, defaults, unique, Registration, [Str(email), Str(hashed)]);
            u.result.Success? ==>
              exists m :: FirstMatch(u.rows, ["active"], UserById(u.result.value)) == Some(m)
                          && Lookup(m, "active") == Lookup(defaults, "active")
  {
    var u := Inserting(users, last, defaults, unique, Registration, [Str(email), Str(hashed)]);
    if u.result.Success? {
      var row := NewRow(defaults, Registration, [Str(email), Str(hashed)], last + 1);
      InsertedRow(users, last, defaults, unique, Registration, [Str(email), Str(hashed)]);
      RegisteredRow(defaults, email, hashed, last + 1);
      FirstMatchUnique(u.rows, ["active"], unique + {"id"}, "id", row);
      assert Lookup(Project(row, ["active"]), "active") == Lookup(defaults, "active");
    }
  }

  /**
   * Register, then activate: when both inserts succeed, tokens are unique
   * and new users start inactive, the mailed token activates exactly the
   * new user.
   */
  lemma RegisterThenActivate(users: seq<Row>, usersLast: nat, userDefaults: Row, userUnique: set<string>,
                             tokens: seq<Row>, tokensLast: nat, tokenDefaults: Row, tokenUnique: set<string>,
                             email: string, hashed: string, token: string)
    requires TableValid(users, usersLast, userUnique) && TableValid(tokens, tokensLast, tokenUnique)
    requires "token" in tokenUnique && !Truthy(Lookup(userDefaults, "active"))
    ensures var u := Inserting(users, usersLast, userDefaults, userUnique, Registration, [Str(email), Str(hashed)]);
            u.result.Success? ==>
              var t := Inserting(tokens, tokensLast, tokenDefaults, tokenUnique, TokenColumns, [Str(token), u.result.value]);
              t.result.Success? ==> ActivationTarget(t.rows, u.rows, token) == Success(u.result.value)
  {
    var u := Inserting(users, usersLast, userDefaults, userUnique, Registration, [Str(email), Str(hashed)]);
    if u.result.Success? {
      TokenHeld(tokens, tokensLast, tokenDefaults, tokenUnique, token, u.result.value);
      NewUserFound(users, usersLast, userDefaults, userUnique, email, hashed);
    }
  }
}
