/**
 * The message routes of routers/messages.py. Each handler receives the
 * user id `validate_user` returned and talks to the database only through
 * the `Database` methods.
 */
module Messages {

  import opened Outcomes
  import opened Sql
  import opened Like
  import opened Queries
  import opened Conditions
  import opened Store
  import opened Http

  /** The where dict selecting a message by id. */
  function ById(id: int): seq<Pair>
  {
    [("id", Int(id))]
  }

  /** The columns the listing and the search return. */
  const Shown: seq<string> := ["id", "message", "created_at"]

  /** `where={'private': False}`: the public messages. */
  const PublicOnly: seq<Pair> := [("private", Bool(false))]

  /** `or_where={'private': True, 'user_id': user_id}`: the user's own private messages. */
  function OwnPrivate(user: Value): seq<Pair>
  {
    [("private", Bool(true)), ("user_id", user)]
  }

  /**
   * A message the user may see in a listing: a public one, or a private
   * one of their own (as SQL compares: a NULL never equals anything).
   */
  predicate Visible(x: Row, user: Value)
  {
    Lookup(x, "private") == Bool(false)
    || (Lookup(x, "private") == Bool(true) && user != Null && Lookup(x, "user_id") == user)
  }

  /** The where/or_where pair the listing and the search pass selects exactly the visible messages. */
  lemma VisibleFilter(x: Row, user: Value)
    ensures FilterHolds(PublicOnly, OwnPrivate(user), x) <==> Visible(x, user)
  {
    assert AllEqual(PublicOnly, x) <==> Equal(PublicOnly[0], x);
    assert AllEqual(OwnPrivate(user), x) <==> Equal(OwnPrivate(user)[0], x) && Equal(OwnPrivate(user)[1], x);
  }

  // ---------------------------------------------------------------- listing

  /** A listed message carries exactly the id, the text and the creation time. */
  lemma ShownKeys()
    ensures (set c | c in Shown) == {"id", "message", "created_at"}
  {
  }

  /** What `get_all_messages` answers for the guestbook's rows. */
  function AllMessages(rows: seq<Row>, num: int, user: Value): (r: Response)
    ensures r.Reply? || r.Crashed?
    ensures r.Reply? ==> r.status == 200 && r.body.Listing?
                         && forall i :: 0 <= i < |r.body.rows| ==> r.body.rows[i].Keys == {"id", "message", "created_at"}
  {
    ShownKeys();
    match Fetch(rows, Shown, Some(num), PublicOnly, OwnPrivate(user), [])
    case Failure(e) => Crashed(Database(e))
    case Success(out) => Reply(200, Listing(out))
  }

  /**
   * The listing fails only for a negative `num`; it shows only messages the
   * user may see, at most `num` of them. With `num` 0 (which `if limit:`
   * reads as no limit), or when fewer than `num` come back, it shows every
   * one of them.
   */
  lemma AllMessagesMeaning(rows: seq<Row>, num: int, user: Value)
    ensures var r := AllMessages(rows, num, user);
            && (r.Crashed? <==> num < 0)
            && (r.Reply? ==> r.body.Listing? && forall i :: 0 <= i < |r.body.rows| ==>
                  exists x :: x in rows && Visible(x, user) && r.body.rows[i] == Project(x, Shown))
            && (num >= 0 ==> r.Reply? && r.body.Listing?)
            && (r.Reply? && num > 0 ==> |r.body.rows| <= num)
            && (r.Reply? && (num == 0 || |r.body.rows| < num) ==>
                  forall x :: x in rows && Visible(x, user) ==> Project(x, Shown) in r.body.rows)
  {
    var cond := SelectCond(PublicOnly, OwnPrivate(user), []);
    forall x
      ensures Admits(cond, x) <==> Visible(x, user)
    {
      SelectCondMeaning(PublicOnly, OwnPrivate(user), [], x);
      VisibleFilter(x, user);
    }
    FetchMeaning(rows, Shown, Some(num), PublicOnly, OwnPrivate(user), []);
  }

  /** What `search_for_messages_by_keyword` answers for the guestbook's rows. */
  function SearchResult(rows: seq<Row>, term: string, num: int, user: Value): (r: Response)
    ensures r.Reply? || r.Crashed?
    ensures r.Reply? ==> r.status == 200 && r.body.Listing?
                         && forall i :: 0 <= i < |r.body.rows| ==> r.body.rows[i].Keys == {"id", "message", "created_at"}
  {
    ShownKeys();
    match Fetch(rows, Shown, Some(num), PublicOnly, OwnPrivate(user), [("message", term)])
    case Failure(e) => Crashed(Database(e))
    case Success(out) => Reply(200, Listing(out))
  }

  /**
   * With its single contains key the search is the intended intersection:
   * it shows only messages the user may see whose text contains the term
   * (when the term holds no LIKE wildcard or escape), at most `num` of
   * them. With `num` 0, or when fewer than `num` come back, it shows every
   * one of them.
   */
  lemma SearchResultMeaning(rows: seq<Row>, term: string, num: int, user: Value)
    requires Plain(term)
    ensures var r := SearchResult(rows, term, num, user);
            && (r.Crashed? <==> num < 0)
            && (r.Reply? ==> r.body.Listing? && forall i :: 0 <= i < |r.body.rows| ==>
                  exists x :: x in rows && Visible(x, user) && Lookup(x, "message").Str?
                              && Occurs(term, Lookup(x, "message").s) && r.body.rows[i] == Project(x, Shown))
            && (num >= 0 ==> r.Reply? && r.body.Listing?)
            && (r.Reply? && num > 0 ==> |r.body.rows| <= num)
            && (r.Reply? && (num == 0 || |r.body.rows| < num) ==> forall x ::
                  (x in rows && Visible(x, user) && Lookup(x, "message").Str? && Occurs(term, Lookup(x, "message").s))
                  ==> Project(x, Shown) in r.body.rows)
  {
    var contains := [("message", term)];
    var cond := SelectCond(PublicOnly, OwnPrivate(user), contains);
    forall x
      ensures Admits(cond, x) <==> Visible(x, user) && Lookup(x, "message").Str? && Occurs(term, Lookup(x, "message").s)
    {
      SingleKeyIntersects(PublicOnly, OwnPrivate(user), "message", term, x);
      VisibleFilter(x, user);
      if Lookup(x, "message").Str? {
        SurroundMeansOccurs(Lookup(x, "message").s, term);
      }
    }
    FetchMeaning(rows, Shown, Some(num), PublicOnly, OwnPrivate(user), contains);
  }

  /** The columns `view_a_specific_message` reads. */
  const Viewed: seq<string> := ["id", "user_id", "message", "created_at", "private"]

  /** What `view_a_specific_message` answers once `get_one` found `m`. */
  function Disclosed(m: Row, user: Value): Response
  {
    if Truthy(Lookup(m, "private")) && Lookup(m, "user_id") != user then
      Refuse(403, "You are not allowed to view this message!")
    else
      Reply(200, Fields(map["id" := Lookup(m, "id"), "message" := Lookup(m, "message"), "created_at" := Lookup(m, "created_at")]))
  }

  /** What `view_a_specific_message` answers for the guestbook's rows. */
  function ViewAnswer(rows: seq<Row>, id: int, user: Value): (r: Response)
    ensures r.Reply? ==> r.status == 200 && r.body.Fields? && r.body.fields.Keys == {"id", "message", "created_at"}
    ensures !r.Reply? ==> r.Raised? && (r.status == 404 || r.status == 403) && r.headers == map[]
  {
    match FirstMatch(rows, Viewed, ById(id))
    case None => Refuse(404, "Message was not found.")
    case Some(m) => Disclosed(m, user)
  }

  /** The answer for a found row depends only on the columns `get_one` selected. */
  lemma DisclosedProjected(x: Row, user: Value)
    ensures Disclosed(Project(x, Viewed), user) == Disclosed(x, user)
  {
    var m := Project(x, Viewed);
    assert Lookup(m, "private") == Lookup(x, "private") && Lookup(m, "user_id") == Lookup(x, "user_id");
    assert Lookup(m, "id") == Lookup(x, "id") && Lookup(m, "message") == Lookup(x, "message");
    assert Lookup(m, "created_at") == Lookup(x, "created_at");
  }

  /** Viewing a message that does not exist is a 404. */
  lemma ViewAbsent(rows: seq<Row>, id: int, user: Value)
    requires forall x :: x in rows ==> Lookup(x, "id") != Int(id)
    ensures ViewAnswer(rows, id, user) == Refuse(404, "Message was not found.")
  {
    forall y | y in rows
      ensures !AllEqual(ById(id), y)
    {
      assert !Equal(ById(id)[0], y);
    }
    FirstMatchMeaning(rows, Viewed, ById(id));
  }

  /**
   * With ids unique, a private message of another user is refused, and any
   * other message is shown with its id, text and creation time.
   */
  lemma ViewFound(rows: seq<Row>, unique: set<string>, id: int, user: Value, x: Row)
    requires UniqueHolds(rows, unique) && "id" in unique
    requires x in rows && Lookup(x, "id") == Int(id)
    ensures ViewAnswer(rows, id, user) ==
              if Truthy(Lookup(x, "private")) && Lookup(x, "user_id") != user then Refuse(403, "You are not allowed to view this message!")
              else Reply(200, Fields(map["id" := Int(id), "message" := Lookup(x, "message"), "created_at" := Lookup(x, "created_at")]))
  {
    FirstMatchUnique(rows, Viewed, unique, "id", x);
    DisclosedProjected(x, user);
  }

  // ------------------------------------------------------------ the handlers

  /** `get_all_messages`: the messages the user may see, `num` (default 3) at most. */
  method GetAllMessages(db: Database, num: int, user: Value) returns (r: Response)
    modifies db
    ensures db.tables == old(db.tables) && db.serial == old(db.serial)
    ensures r == if "guestbook" in db.tables then AllMessages(db.tables["guestbook"], num, user)
                 else Crashed(Database(UndefinedTable))
    ensures db.log == old(db.log) + [GetCall("guestbook", Shown, Some(num), PublicOnly, OwnPrivate(user), [])]
  {
    var found := db.Get("guestbook", Shown, Some(num), PublicOnly, OwnPrivate(user), []);
    match found
    case Failure(e) =>
      r := Crashed(Database(e));
    case Success(out) =>
      r := Reply(200, Listing(out));
  }

  /** `search_for_messages_by_keyword`: the visible messages whose text is like `%term%`, `num` (default 10) at most. */
  method SearchMessages(db: Database, term: string, num: int, user: Value) returns (r: Response)
    modifies db
    ensures db.tables == old(db.tables) && db.serial == old(db.serial)
    ensures r == if "guestbook" in db.tables then SearchResult(db.tables["guestbook"], term, num, user)
                 else Crashed(Database(UndefinedTable))
    ensures db.log == old(db.log) + [GetCall("guestbook", Shown, Some(num), PublicOnly, OwnPrivate(user), [("message", term)])]
  {
    var found := db.Get("guestbook", Shown, Some(num), PublicOnly, OwnPrivate(user), [("message", term)]);
    match found
    case Failure(e) =>
      r := Crashed(Database(e));
    case Success(out) =>
      r := Reply(200, Listing(out));
  }

  /** `view_a_specific_message`. */
  method ViewMessage(db: Database, messageId: int, user: Value) returns (r: Response)
    modifies db
    ensures db.tables == old(db.tables) && db.serial == old(db.serial)
    ensures r == if "guestbook" in db.tables then ViewAnswer(db.tables["guestbook"], messageId, user)
                 else Crashed(Database(UndefinedTable))
    ensures db.log == old(db.log) + [GetCall("guestbook", Viewed, Some(1), ById(messageId), [], [])]
  {
    var found := db.GetOne("guestbook", Viewed, ById(messageId));
    if found.Failure? {
      return Crashed(Database(found.error));
    }
    match found.value
    case None =>
      r := Refuse(404, "Message was not found.");
    case Some(m) =>
      if Truthy(Lookup(m, "private")) && Lookup(m, "user_id") != user {
        r := Refuse(403, "You are not allowed to view this message!");
      } else {
        r := Reply(200, Fields(map["id" := Lookup(m, "id"), "message" := Lookup(m, "message"), "created_at" := Lookup(m, "created_at")]));
      }
  }

  // ----------------------------------------------------------------- posting

  /** The columns `write_a_message_on_the_guestbook` fills. */
  const Posted: seq<string> := ["message", "user_id", "private"]

  /** `write_a_message_on_the_guestbook`: insert the message and return its id. */
  method WriteMessage(db: Database, message: string, private: bool, user: Value) returns (r: Response)
    modifies db
    ensures db.log == old(db.log) + [WriteCall("guestbook", Posted, [Str(message), user, Bool(private)])]
    ensures "guestbook" !in old(db.tables) ==>
              r == Crashed(Database(UndefinedTable)) && db.tables == old(db.tables) && db.serial == old(db.serial)
    ensures "guestbook" in old(db.tables) ==>
              var o := Inserting(old(db.tables["guestbook"]), old(db.LastId("guestbook")), db.DefaultsOf("guestbook"),
                                 db.UniqueOf("guestbook"), Posted, [Str(message), user, Bool(private)]);
              && db.tables == old(db.tables)["guestbook" := o.rows]
              && db.serial == old(db.serial)["guestbook" := o.last]
              && r == match o.result
                      case Failure(e) => Crashed(Database(e))
                      case Success(id) => Reply(200, Fields(map["Result" := Str("A message record inserted into DB"),
                                                               "message_id" := id, "message" := Str(message)]))
    ensures old(db.Valid()) ==> db.Valid()
  {
    var id := db.Write("guestbook", Posted, [Str(message), user, Bool(private)]);
    match id
    case Failure(e) =>
      r := Crashed(Database(e));
    case Success(v) =>
      r := Reply(200, Fields(map["Result" := Str("A message record inserted into DB"), "message_id" := v, "message" := Str(message)]));
  }

  /** The row a post inserts holds the text, the author, the flag and the default creation time. */
  lemma PostedRow(defaults: Row, message: string, private: bool, user: Value, id: nat)
    ensures var row := NewRow(defaults, Posted, [Str(message), user, Bool(private)], id);
            && Lookup(row, "message") == Str(message) && Lookup(row, "user_id") == user
            && Lookup(row, "private") == Bool(private) && Lookup(row, "created_at") == Lookup(defaults, "created_at")
  {
    var values := [Str(message), user, Bool(private)];
    NewRowHolds(defaults, Posted, values, id);
    assert Posted[0] == "message" && Posted[1] == "user_id" && Posted[2] == "private" && "created_at" !in Posted;
  }

  /**
   * Post, then view: the author viewing the id the post returned sees the
   * text they wrote (and the table's default creation time), private or not.
   */
  lemma PostThenView(rows: seq<Row>, last: nat, defaults: Row, unique: set<string>,
                     message: string, private: bool, user: Value)
    requires TableValid(rows, last, unique)
    ensures var o := Inserting(rows, last, defaults, unique, Posted, [Str(message), user, Bool(private)]);
            o.result.Success? ==>
              ViewAnswer(o.rows, last + 1, user) ==
                Reply(200, Fields(map["id" := Int(last + 1), "message" := Str(message), "created_at" := Lookup(defaults, "created_at")]))
  {
    var values := [Str(message), user, Bool(private)];
    var o := Inserting(rows, last, defaults, unique, Posted, values);
    if o.result.Success? {
      InsertedRow(rows, last, defaults, unique, Posted, values);
      PostedRow(defaults, message, private, user, last + 1);
      ViewFound(o.rows, unique + {"id"}, last + 1, user, NewRow(defaults, Posted, values, last + 1));
    }
  }

  // ----------------------------------------------------------------- editing

  /** The columns `update_a_specific_message` assigns. */
  const Edited: seq<string> := ["message", "private"]

  /** The assignments of an edit. */
  function Edit(message: string, private: bool): map<string, Value>
  {
    map["message" := Str(message), "private" := Bool(private)]
  }

  lemma EditZip(message: string, private: bool)
    ensures var zipped := Zip(Edited, [Str(message), Bool(private)]);
            zipped != [] && Distinct(Keys(zipped)) && AsMap(zipped) == Edit(message, private)
            && "id" !in Keys(zipped) && AsMap(zipped).Keys == {"message", "private"}
  {
    ZipTwo("message", "private", Str(message), Bool(private));
  }

  /** Why `update_a_specific_message` refuses, or None when the user owns the message. */
  function EditRefusal(rows: seq<Row>, id: int, user: Value): Option<Response>
  {
    match FirstMatch(rows, ["id", "user_id"], ById(id))
    case None => Some(Refuse(404, "Message was not found."))
    case Some(m) =>
      if Lookup(m, "user_id") == user then None
      else Some(Refuse(403, "You are not allowed to update this message!"))
  }

  /** Editing a message that does not exist is a 404. */
  lemma EditAbsent(rows: seq<Row>, id: int, user: Value)
    requires forall x :: x in rows ==> Lookup(x, "id") != Int(id)
    ensures EditRefusal(rows, id, user) == Some(Refuse(404, "Message was not found."))
  {
    forall y | y in rows
      ensures !AllEqual(ById(id), y)
    {
      assert !Equal(ById(id)[0], y);
    }
    FirstMatchMeaning(rows, ["id", "user_id"], ById(id));
  }

  /** With ids unique, exactly the message's owner may edit it. */
  lemma EditFound(rows: seq<Row>, unique: set<string>, id: int, user: Value, x: Row)
    requires UniqueHolds(rows, unique) && "id" in unique
    requires x in rows && Lookup(x, "id") == Int(id)
    ensures EditRefusal(rows, id, user) ==
              if Lookup(x, "user_id") == user then None else Some(Refuse(403, "You are not allowed to update this message!"))
  {
    FirstMatchUnique(rows, ["id", "user_id"], unique, "id", x);
    assert Lookup(Project(x, ["id", "user_id"]), "user_id") == Lookup(x, "user_id");
  }

  /** `update_a_specific_message`: the owner replaces the text and the privacy flag. */
  method UpdateMessage(db: Database, messageId: int, message: string, private: bool, user: Value) returns (r: Response)
    modifies db
    ensures db.serial == old(db.serial)
    ensures "guestbook" !in old(db.tables) ==>
              r == Crashed(Database(UndefinedTable)) && db.tables == old(db.tables)
              && db.log == old(db.log) + [GetCall("guestbook", ["id", "user_id"], Some(1), ById(messageId), [], [])]
    ensures "guestbook" in old(db.tables) ==>
              match EditRefusal(old(db.tables["guestbook"]), messageId, user)
              case Some(refusal) =>
                && r == refusal && db.tables == old(db.tables)
                && db.log == old(db.log) + [GetCall("guestbook", ["id", "user_id"], Some(1), ById(messageId), [], [])]
              case None =>
                && db.log == old(db.log) + [GetCall("guestbook", ["id", "user_id"], Some(1), ById(messageId), [], []),
                                            UpdateCall("guestbook", Edited, [Str(message), Bool(private)], ById(messageId))]
                && db.tables == old(db.tables)["guestbook" := Updated(old(db.tables["guestbook"]), ById(messageId), Edit(message, private))]
                && r == Reply(200, Fields(map["Updated messages" := Int(CountMatching(old(db.tables["guestbook"]), ById(messageId)))]))
    ensures old(db.Valid()) && db.UniqueOf("guestbook") !! {"message", "private"} ==> db.Valid()
  {
    var found := db.GetOne("guestbook", ["id", "user_id"], ById(messageId));
    if found.Failure? {
      return Crashed(Database(found.error));
    }
    if found.value.None? {
      return Refuse(404, "Message was not found.");
    }
    if Lookup(found.value.value, "user_id") == user {
      EditZip(message, private);
      var n := db.Update("guestbook", Edited, [Str(message), Bool(private)], ById(messageId));
      match n
      case Failure(e) =>
        r := Crashed(Database(e));
      case Success(count) =>
        r := Reply(200, Fields(map["Updated messages" := Int(count)]));
      return;
    }
    r := Refuse(403, "You are not allowed to update this message!");
  }

  /** An edited row holds the new text and flag and keeps its id, owner and creation time. */
  lemma EditedRow(x: Row, message: string, private: bool)
    ensures var y := x + Edit(message, private);
            && Lookup(y, "message") == Str(message) && Lookup(y, "private") == Bool(private)
            && Lookup(y, "id") == Lookup(x, "id") && Lookup(y, "user_id") == Lookup(x, "user_id")
            && Lookup(y, "created_at") == Lookup(x, "created_at")
  {
  }

  /**
   * Edit, then view: after the owner's edit, viewing the message shows the
   * new text, with the creation time unchanged.
   */
  lemma EditThenView(rows: seq<Row>, id: int, user: Value, x: Row, message: string, private: bool)
    requires UniqueHolds(rows, {"id"}) && x in rows && Lookup(x, "id") == Int(id) && Lookup(x, "user_id") == user
    ensures ViewAnswer(Updated(rows, ById(id), Edit(message, private)), id, user) ==
              Reply(200, Fields(map["id" := Int(id), "message" := Str(message), "created_at" := Lookup(x, "created_at")]))
  {
    var edit := Edit(message, private);
    var out := Updated(rows, ById(id), edit);
    UpdatedKeepsUnique(rows, ById(id), edit, {"id"});
    assert Equal(ById(id)[0], x);
    UpdatedRowIn(rows, ById(id), edit, x);
    EditedRow(x, message, private);
    ViewFound(out, {"id"}, id, user, x + edit);
  }

  // ---------------------------------------------------------------- deleting

  /** `{'id': message_id, 'user_id': user_id}`: the message, if the user owns it. */
  function Owned(id: int, user: Value): seq<Pair>
  {
    [("id", Int(id)), ("user_id", user)]
  }

  /** The where dict of a delete admits exactly the message with that id when the user owns it. */
  lemma OwnedMeaning(id: int, user: Value, x: Row)
    ensures AllEqual(Owned(id, user), x) <==> Lookup(x, "id") == Int(id) && user != Null && Lookup(x, "user_id") == user
  {
    assert AllEqual(Owned(id, user), x) <==> Equal(Owned(id, user)[0], x) && Equal(Owned(id, user)[1], x);
  }

  /** `delete_a_specific_message`: delete the message if the user owns it. */
  method DeleteMessage(db: Database, messageId: int, user: Value) returns (r: Response)
    modifies db
    ensures db.serial == old(db.serial)
    ensures db.log == old(db.log) + [DeleteCall("guestbook", Owned(messageId, user))]
    ensures "guestbook" !in old(db.tables) ==> r == Crashed(Database(UndefinedTable)) && db.tables == old(db.tables)
    ensures "guestbook" in old(db.tables) ==>
              var n := CountMatching(old(db.tables["guestbook"]), Owned(messageId, user));
              && db.tables == old(db.tables)["guestbook" := Kept(old(db.tables["guestbook"]), Owned(messageId, user))]
              && r == if n == 0 then Refuse(400, "Message was not found or you do not have permission to delete it.")
                      else Reply(200, Fields(map["Deleted messages" := Int(n)]))
    ensures r.Raised? ==> db.tables == old(db.tables)
    ensures old(db.Valid()) ==> db.Valid()
  {
    ghost var before := db.Rows("guestbook");
    var n := db.Delete("guestbook", Owned(messageId, user));
    if n.Failure? {
      return Crashed(Database(n.error));
    }
    if n.value == 0 {
      NoneMatchKeepsAll(before, Owned(messageId, user), map[]);
      return Refuse(400, "Message was not found or you do not have permission to delete it.");
    }
    r := Reply(200, Fields(map["Deleted messages" := Int(n.value)]));
  }

  /**
   * A delete removes exactly the user's message with that id: every other
   * row, and in particular every message of another user, survives.
   */
  lemma DeleteOwnOnly(rows: seq<Row>, id: int, user: Value)
    ensures forall x :: x in rows ==>
              (x in Kept(rows, Owned(id, user)) <==> !(Lookup(x, "id") == Int(id) && user != Null && Lookup(x, "user_id") == user))
  {
    forall x | x in rows
      ensures AllEqual(Owned(id, user), x) <==> Lookup(x, "id") == Int(id) && user != Null && Lookup(x, "user_id") == user
    {
      OwnedMeaning(id, user, x);
    }
  }

  /** Delete, then view: with ids unique, a deleted message is not found by anyone. */
  lemma DeletedThenGone(rows: seq<Row>, unique: set<string>, id: int, user: Value, viewer: Value)
    requires UniqueHolds(rows, unique) && "id" in unique
    requires CountMatching(rows, Owned(id, user)) > 0
    ensures ViewAnswer(Kept(rows, Owned(id, user)), id, viewer) == Refuse(404, "Message was not found.")
  {
    CountPositive(rows, Owned(id, user));
    var x :| x in rows && AllEqual(Owned(id, user), x);
    OwnedMeaning(id, user, x);
    var kept := Kept(rows, Owned(id, user));
    forall y | y in kept
      ensures Lookup(y, "id") != Int(id)
    {
      if Lookup(y, "id") == Int(id) {
        UniqueRow(rows, unique, "id", x, y);
      }
    }
    ViewAbsent(kept, id, viewer);
  }

  // ---------------------------------------------------------------- upvoting

  /** The columns `upvote_a_message` reads from the message. */
  const Voted: seq<string> := ["id", "user_id", "private"]

  /** The columns an upvote fills. */
  const VoteColumns: seq<string> := ["user_id", "message_id"]

  /** `{'message_id': message_id, 'user_id': user_id}`: the user's upvote of the message. */
  function Vote(id: int, user: Value): seq<Pair>
  {
    [("message_id", Int(id)), ("user_id", user)]
  }

  /** Why `upvote_a_message` refuses, or None when the upvote goes ahead. */
  function UpvoteRefusal(messages: seq<Row>, votes: seq<Row>, id: int, user: Value): Option<Response>
  {
    match FirstMatch(messages, Voted, ById(id))
    case None => Some(Refuse(404, "A message by this ID was not found."))
    case Some(m) =>
      if Lookup(m, "user_id") == user || Truthy(Lookup(m, "private")) then
        Some(Refuse(403, "You can not upvote your own or private messages!"))
      else if FirstMatch(votes, ["id"], Vote(id, user)).Some? then
        Some(Refuse(403, "You can not upvote the same message more than once!"))
      else None
  }

  /** The where dict of the upvote lookup admits exactly the user's upvotes of the message. */
  lemma VoteMeaning(id: int, user: Value, v: Row)
    ensures AllEqual(Vote(id, user), v) <==> Lookup(v, "message_id") == Int(id) && user != Null && Lookup(v, "user_id") == user
  {
    assert AllEqual(Vote(id, user), v) <==> Equal(Vote(id, user)[0], v) && Equal(Vote(id, user)[1], v);
  }

  /** The user has already upvoted the message. */
  predicate HasVoted(votes: seq<Row>, id: int, user: Value)
  {
    exists v :: v in votes && Lookup(v, "message_id") == Int(id) && user != Null && Lookup(v, "user_id") == user
  }

  lemma VoteLookup(votes: seq<Row>, id: int, user: Value)
    ensures FirstMatch(votes, ["id"], Vote(id, user)).Some? <==> HasVoted(votes, id, user)
  {
    FirstMatchMeaning(votes, ["id"], Vote(id, user));
    forall v | v in votes
      ensures AllEqual(Vote(id, user), v) <==> Lookup(v, "message_id") == Int(id) && user != Null && Lookup(v, "user_id") == user
    {
      VoteMeaning(id, user, v);
    }
  }

  /** Upvoting a message that does not exist is a 404. */
  lemma UpvoteAbsent(messages: seq<Row>, votes: seq<Row>, id: int, user: Value)
    requires forall x :: x in messages ==> Lookup(x, "id") != Int(id)
    ensures UpvoteRefusal(messages, votes, id, user) == Some(Refuse(404, "A message by this ID was not found."))
  {
    forall y | y in messages
      ensures !AllEqual(ById(id), y)
    {
      assert !Equal(ById(id)[0], y);
    }
    FirstMatchMeaning(messages, Voted, ById(id));
  }

  /**
   * With ids unique, an existing message may be upvoted exactly when it is
   * public, someone else's, and not yet upvoted by this user.
   */
  lemma UpvoteFound(messages: seq<Row>, unique: set<string>, votes: seq<Row>, id: int, user: Value, x: Row)
    requires UniqueHolds(messages, unique) && "id" in unique
    requires x in messages && Lookup(x, "id") == Int(id)
    ensures UpvoteRefusal(messages, votes, id, user) ==
              if Lookup(x, "user_id") == user || Truthy(Lookup(x, "private")) then
                Some(Refuse(403, "You can not upvote your own or private messages!"))
              else if HasVoted(votes, id, user) then
                Some(Refuse(403, "You can not upvote the same message more than once!"))
              else None
  {
    FirstMatchUnique(messages, Voted, unique, "id", x);
    var m := Project(x, Voted);
    assert Lookup(m, "user_id") == Lookup(x, "user_id") && Lookup(m, "private") == Lookup(x, "private");
    VoteLookup(votes, id, user);
  }

  /** A user's upvote of a message: both columns set, and they agree. */
  predicate SameVote(x: Row, y: Row)
  {
    Lookup(x, "message_id") != Null && Lookup(y, "message_id") == Lookup(x, "message_id")
    && Lookup(x, "user_id") != Null && Lookup(y, "user_id") == Lookup(x, "user_id")
  }

  /** No user has upvoted the same message twice. */
  predicate SingleVotes(votes: seq<Row>)
  {
    forall i, j :: 0 <= i < j < |votes| ==> !SameVote(votes[i], votes[j])
  }

  /** The row an upvote inserts records the user and the message. */
  lemma VoteRow(defaults: Row, id: int, user: Value, n: nat)
    ensures var row := NewRow(defaults, VoteColumns, [user, Int(id)], n);
            Lookup(row, "user_id") == user && Lookup(row, "message_id") == Int(id)
  {
    NewRowHolds(defaults, VoteColumns, [user, Int(id)], n);
    assert VoteColumns[0] == "user_id" && VoteColumns[1] == "message_id";
  }

  /** An upvote that passes the checks keeps every (user, message) pair upvoted at most once. */
  lemma UpvoteKeepsSingle(messages: seq<Row>, votes: seq<Row>, last: nat, defaults: Row, unique: set<string>,
                          id: int, user: Value)
    requires SingleVotes(votes) && UpvoteRefusal(messages, votes, id, user) == None
    ensures SingleVotes(Inserting(votes, last, defaults, unique, VoteColumns, [user, Int(id)]).rows)
  {
    var o := Inserting(votes, last, defaults, unique, VoteColumns, [user, Int(id)]);
    if o.result.Success? {
      var row := NewRow(defaults, VoteColumns, [user, Int(id)], last + 1);
      VoteRow(defaults, id, user, last + 1);
      VoteLookup(votes, id, user);
      assert o.rows == votes + [row];
      forall i | 0 <= i < |votes|
        ensures !SameVote(votes[i], row)
      {
        assert votes[i] in votes;
      }
    } else {
      InsertingFailureKeeps(votes, last, defaults, unique, VoteColumns, [user, Int(id)]);
    }
  }

  /** Upvote twice: once the first upvote is written, the same user's second one is refused. */
  lemma SecondUpvoteRefused(messages: seq<Row>, votes: seq<Row>, last: nat, defaults: Row, unique: set<string>,
                            id: int, user: Value)
    requires UpvoteRefusal(messages, votes, id, user) == None && user != Null
    ensures var o := Inserting(votes, last, defaults, unique, VoteColumns, [user, Int(id)]);
            o.result.Success? ==>
              UpvoteRefusal(messages, o.rows, id, user) == Some(Refuse(403, "You can not upvote the same message more than once!"))
  {
    var o := Inserting(votes, last, defaults, unique, VoteColumns, [user, Int(id)]);
    if o.result.Success? {
      var row := NewRow(defaults, VoteColumns, [user, Int(id)], last + 1);
      VoteRow(defaults, id, user, last + 1);
      assert row in o.rows;
      VoteLookup(o.rows, id, user);
    }
  }

  /** The lookup of the message an upvote names. */
  function MessageLookup(id: int): Call
  {
    GetCall("guestbook", Voted, Some(1), ById(id), [], [])
  }

  /** The lookup of the user's earlier upvote of the message. */
  function VoteLookupCall(id: int, user: Value): Call
  {
    GetCall("upvotes", ["id"], Some(1), Vote(id, user), [], [])
  }

  /**
   * The lookups `upvote_a_message` sends before deciding: the message, then
   * the user's earlier vote only when the message is someone else's and public.
   */
  function UpvoteLookups(messages: seq<Row>, id: int, user: Value): (r: seq<Call>)
    ensures 1 <= |r| <= 2 && r[0] == MessageLookup(id)
    ensures forall i :: 0 <= i < |r| ==> r[i].GetCall?
  {
    match FirstMatch(messages, Voted, ById(id))
    case None => [MessageLookup(id)]
    case Some(m) =>
      if Lookup(m, "user_id") == user || Truthy(Lookup(m, "private")) then [MessageLookup(id)]
      else [MessageLookup(id), VoteLookupCall(id, user)]
  }

  /**
   * The checks `upvote_a_message` makes before writing: the refusal (or the
   * server error) that stops it, or None when the upvote goes ahead.
   */
  method UpvoteChecks(db: Database, messageId: int, user: Value) returns (stop: Option<Response>)
    modifies db
    ensures db.tables == old(db.tables) && db.serial == old(db.serial)
    ensures "guestbook" !in db.tables ==> stop == Some(Crashed(Database(UndefinedTable)))
    ensures "upvotes" !in db.tables ==> stop.Some?
    ensures stop.Some? ==> !stop.value.Reply?
    ensures "guestbook" in db.tables && "upvotes" in db.tables ==>
              stop == UpvoteRefusal(db.tables["guestbook"], db.tables["upvotes"], messageId, user)
    ensures db.log == old(db.log) + UpvoteLookups(db.Rows("guestbook"), messageId, user)
    ensures stop.None? ==> db.log == old(db.log) + [MessageLookup(messageId), VoteLookupCall(messageId, user)]
  {
    var found := db.GetOne("guestbook", Voted, ById(messageId));
    if found.Failure? {
      return Some(Crashed(Database(found.error)));
    }
    if found.value.None? {
      return Some(Refuse(404, "A message by this ID was not found."));
    }
    var m := found.value.value;
    if Lookup(m, "user_id") == user || Truthy(Lookup(m, "private")) {
      return Some(Refuse(403, "You can not upvote your own or private messages!"));
    }
    var already := db.GetOne("upvotes", ["id"], Vote(messageId, user));
    if already.Failure? {
      return Some(Crashed(Database(already.error)));
    }
    if already.value.Some? {
      return Some(Refuse(403, "You can not upvote the same message more than once!"));
    }
    stop := None;
  }

  /** `upvote_a_message`: record the user's upvote of someone else's public message, once. */
  method Upvote(db: Database, messageId: int, user: Value) returns (r: Response)
    modifies db
    ensures !r.Reply? ==> db.tables == old(db.tables)
    ensures "guestbook" !in old(db.tables) ==> r == Crashed(Database(UndefinedTable))
    ensures "upvotes" !in old(db.tables) ==> !r.Reply?
    ensures "guestbook" !in old(db.tables) || "upvotes" !in old(db.tables) ==>
              db.serial == old(db.serial) && db.log == old(db.log) + UpvoteLookups(old(db.Rows("guestbook")), messageId, user)
    ensures db.log == old(db.log) + UpvoteLookups(old(db.Rows("guestbook")), messageId, user)
            || db.log == old(db.log) + [MessageLookup(messageId), VoteLookupCall(messageId, user),
                                        WriteCall("upvotes", VoteColumns, [user, Int(messageId)])]
    ensures "guestbook" in old(db.tables) && "upvotes" in old(db.tables) ==>
              match UpvoteRefusal(old(db.tables["guestbook"]), old(db.tables["upvotes"]), messageId, user)
              case Some(refusal) =>
                && r == refusal && db.serial == old(db.serial)
                && db.log == old(db.log) + UpvoteLookups(old(db.tables["guestbook"]), messageId, user)
              case None =>
                var o := Inserting(old(db.tables["upvotes"]), old(db.LastId("upvotes")), db.DefaultsOf("upvotes"),
                                   db.UniqueOf("upvotes"), VoteColumns, [user, Int(messageId)]);
                && db.tables == old(db.tables)["upvotes" := o.rows]
                && db.serial == old(db.serial)["upvotes" := o.last]
                && db.log == old(db.log) + [MessageLookup(messageId), VoteLookupCall(messageId, user),
                                            WriteCall("upvotes", VoteColumns, [user, Int(messageId)])]
                && r == if o.result.Success? then Reply(200, Fields(map["Result" := Str("A message was successfully upvoted, thank you!"),
                                                                       "message_id" := Int(messageId)]))
                        else Crashed(Database(o.result.error))
    ensures old(db.Valid()) ==> db.Valid()
  {
    var stop := UpvoteChecks(db, messageId, user);
    if stop.Some? {
      return stop.value;
    }
    InsertingFailureKeeps(db.tables["upvotes"], db.LastId("upvotes"), db.DefaultsOf("upvotes"), db.UniqueOf("upvotes"),
                          VoteColumns, [user, Int(messageId)]);
    var written := db.Write("upvotes", VoteColumns, [user, Int(messageId)]);
    if written.Failure? {
      return Crashed(Database(written.error));
    }
    r := Reply(200, Fields(map["Result" := Str("A message was successfully upvoted, thank you!"), "message_id" := Int(messageId)]));
  }
}
