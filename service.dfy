/**
 * The recipe service of backend/app.py with Flask and SQLite stripped away:
 * a two-table store (users and recipes, each keyed by an AUTOINCREMENT id)
 * and one pure function per request handler. A mutating handler maps the
 * old tables to the new tables and the reply; a read-only handler maps the
 * tables to its reply.
 */
module RecipeService {
  import opened Optional
  import opened PyText

  /** A row of `users`: the username (UNIQUE NOT NULL) and the password digest. */
  datatype User = User(username: string, digest: string)

  /** A row of `recipes`; `description` and `image` are nullable columns. */
  datatype Recipe = Recipe(title: string, description: Option<string>, ownerId: int, image: Option<string>)

  /**
   * Both tables, and for each the largest id AUTOINCREMENT has ever handed
   * out (SQLite keeps it in `sqlite_sequence`, so ids are never reused).
   */
  datatype State = State(users: map<int, User>, recipes: map<int, Recipe>, lastUserId: int, lastRecipeId: int)

  /** The largest and the smallest value of SQLite's 64-bit INTEGER; AUTOINCREMENT issues no id above the largest. */
  const Int64Max := 0x7FFF_FFFF_FFFF_FFFF
  const Int64Min := -0x8000_0000_0000_0000

  /** An integer `sqlite3` can bind as a parameter; binding any other raises OverflowError. */
  predicate Bindable(n: int) {
    Int64Min <= n <= Int64Max
  }

  /** The message of the `SQLITE_FULL` error an AUTOINCREMENT insert raises once the largest id is taken. */
  const DatabaseFull := "database or disk is full"

  /** The tables `init_db` creates: empty, no id issued yet. */
  const Init := State(map[], map[], 0, 0)

  /**
   * What every reachable state satisfies: ids lie between 1 and the last id
   * issued, which is at most the largest 64-bit integer, usernames are unique (the UNIQUE constraint), and every stored
   * username is non-empty and stripped (registration stores it so).
   */
  ghost predicate WellFormed(s: State) {
    && 0 <= s.lastUserId <= Int64Max && 0 <= s.lastRecipeId <= Int64Max
    && (forall id :: id in s.users ==> 1 <= id <= s.lastUserId)
    && (forall id :: id in s.recipes ==> 1 <= id <= s.lastRecipeId)
    && (forall a, b :: a in s.users && b in s.users && s.users[a].username == s.users[b].username ==> a == b)
    && (forall id :: id in s.users ==> s.users[id].username != [] && IsStripped(s.users[id].username))
  }

  /** A key of the request's JSON body: absent, explicitly `null`, or a string. */
  datatype Field = Absent | Null | Str(text: string)

  /** Python's `data.get(key, default)`: the default only when the key is absent. */
  function GetDefault(f: Field, default: string): Option<string> {
    match f
    case Absent => Some(default)
    case Null => None
    case Str(t) => Some(t)
  }

  /** Python's `data.get(key)`: `None` for an absent key and for `null`. */
  function Get(f: Field): Option<string> {
    match f
    case Str(t) => Some(t)
    case _ => None
  }

  /**
   * The password-hashing capability: `hash(salt, password)` is the digest
   * `generate_password_hash` stores, `verify(digest, password)` is
   * `check_password_hash`. The salt is the randomness hashing draws.
   */
  datatype Hasher = Hasher(hash: (string, string) -> string, verify: (string, string) -> bool)

  /** A digest always verifies against the password it was made from. */
  ghost predicate Sound(h: Hasher) {
    forall salt, password :: h.verify(h.hash(salt, password), password)
  }

  /** The reply of a handler: HTTP 200 with a message and maybe an id, an error envelope, or an uncaught exception. */
  datatype Reply =
    | Ok(message: string, id: Option<int>)
    | Err(code: int, message: string)
    | Crash  // an exception escapes the handler: Flask answers 500, and the tables are unchanged (no connection was open yet, or it rolled back)
  {
    function Code(): int {
      match this
      case Ok(_, _) => 200
      case Err(c, _) => c
      case Crash => 500
    }
  }

  const MissingCredentials := "Missing username or password"
  const InvalidCredentials := "Invalid credentials"

  /** Some row of `users` has this username. */
  predicate UsernameTaken(users: map<int, User>, name: string) {
    exists id :: id in users && users[id].username == name
  }

  /**
   * `SELECT id, password FROM users WHERE username=?` followed by
   * `fetchone()`, as a scan of the ids from `k` down to 1.
   */
  function FindUser(users: map<int, User>, name: string, k: int): (r: Option<int>)
    decreases k
    ensures r.Some? ==> 1 <= r.value <= k && r.value in users && users[r.value].username == name
    ensures r.None? ==> forall id :: id in users && 1 <= id <= k ==> users[id].username != name
  {
    if k <= 0 then None
    else if k in users && users[k].username == name then Some(k)
    else FindUser(users, name, k - 1)
  }

  /** Every row of `s.users` is still in `t.users`, unchanged. */
  ghost predicate UsersKept(s: State, t: State) {
    forall id :: id in s.users ==> id in t.users && t.users[id] == s.users[id]
  }

  /**
   * `register`: validate, then insert a user with a fresh id and the digest
   * of the stripped password. Once the largest id is taken, the insert
   * fails with `SQLITE_FULL` before the UNIQUE check, and the handler's
   * `except Exception` answers 500 with the error's message.
   */
  function Register(s: State, h: Hasher, salt: string, username: Field, password: Field): (out: (State, Reply))
    ensures !out.1.Ok? ==> out.0 == s
    ensures WellFormed(s) ==> WellFormed(out.0) && UsersKept(s, out.0)
    ensures out.0.recipes == s.recipes
  {
    var u := GetDefault(username, "");
    var p := GetDefault(password, "");
    if u.None? || p.None? then (s, Crash)
    else
      var name := Strip(u.value);
      var pw := Strip(p.value);
      if name == [] || pw == [] then (s, Err(400, MissingCredentials))
      else if s.lastUserId >= Int64Max then (s, Err(500, DatabaseFull))
      else if UsernameTaken(s.users, name) then (s, Err(400, "User already exists"))
      else
        var id := s.lastUserId + 1;
        (s.(users := s.users[id := User(name, h.hash(salt, pw))], lastUserId := id), Ok("Registered", Some(id)))
  }

  /** A user with this username exists whose digest verifies against this password. */
  ghost predicate Accepts(s: State, h: Hasher, name: string, pw: string) {
    exists id :: id in s.users && s.users[id].username == name && h.verify(s.users[id].digest, pw)
  }

  /**
   * `login`: validate, look the user up, verify the stripped password. An
   * unknown user and a wrong password get the same 401 reply. Login reads
   * the tables and returns no new state.
   */
  function Login(s: State, h: Hasher, username: Field, password: Field): (r: Reply)
    requires WellFormed(s)
    ensures r.Ok? <==> (GetDefault(username, "").Some? && GetDefault(password, "").Some?
                        && Strip(GetDefault(username, "").value) != [] && Strip(GetDefault(password, "").value) != []
                        && Accepts(s, h, Strip(GetDefault(username, "").value), Strip(GetDefault(password, "").value)))
    ensures r.Ok? ==> r.id.Some? && r.id.value in s.users
                      && s.users[r.id.value].username == Strip(GetDefault(username, "").value)
    ensures r.Err? ==> r.code in {400, 401}
    ensures r.Code() == 500 <==> username.Null? || password.Null?
  {
    var u := GetDefault(username, "");
    var p := GetDefault(password, "");
    if u.None? || p.None? then Crash
    else
      var name := Strip(u.value);
      var pw := Strip(p.value);
      if name == [] || pw == [] then Err(400, MissingCredentials)
      else
        match FindUser(s.users, name, s.lastUserId)
        case None => Err(401, InvalidCredentials)
        case Some(id) =>
          if !h.verify(s.users[id].digest, pw) then Err(401, InvalidCredentials)
          else Ok("Login success", Some(id))
  }

  /**
   * `add_recipe`: validate the stripped title and the owner, then insert a
   * recipe with a fresh id. Whether the owner exists is not checked. An
   * owner id outside 64 bits fails to bind and a full AUTOINCREMENT counter
   * fails the insert: either exception escapes the handler.
   */
  function AddRecipe(s: State, title: Field, description: Field, ownerId: Option<int>, image: Field): (out: (State, Reply))
    ensures !out.1.Ok? ==> out.0 == s
    ensures WellFormed(s) ==> WellFormed(out.0)
    ensures out.0.users == s.users
  {
    var t := GetDefault(title, "");
    var d := GetDefault(description, "");
    if t.None? || d.None? then (s, Crash)
    else
      var tt := Strip(t.value);
      if tt == [] || ownerId.None? then (s, Err(400, "Missing title or owner_id"))
      else if !Bindable(ownerId.value) || s.lastRecipeId >= Int64Max then (s, Crash)
      else
        var id := s.lastRecipeId + 1;
        var row := Recipe(tt, Some(Strip(d.value)), ownerId.value, Get(image));
        (s.(recipes := s.recipes[id := row], lastRecipeId := id), Ok("Recipe added", Some(id)))
  }

  /**
   * `edit_recipe`: existence check, then ownership check, then the update.
   * A route id outside 64 bits fails to bind in the existence query.
   * Title and description are written as sent (not stripped, not
   * validated); the image only when one is sent. A missing title violates
   * NOT NULL: the exception escapes and the transaction rolls back.
   */
  function EditRecipe(s: State, recipeId: nat, ownerId: nat, title: Field, description: Field, image: Field): (out: (State, Reply))
    ensures !out.1.Ok? ==> out.0 == s
    ensures WellFormed(s) ==> WellFormed(out.0)
    ensures out.0.users == s.users
  {
    if !Bindable(recipeId) then (s, Crash)
    else if recipeId !in s.recipes then (s, Err(404, "Recipe not found"))
    else if s.recipes[recipeId].ownerId != ownerId then (s, Err(403, "Not allowed"))
    else if Get(title).None? then (s, Crash)
    else
      var stored := s.recipes[recipeId];
      var img := if Get(image).Some? then Get(image) else stored.image;
      var row := stored.(title := Get(title).value, description := Get(description), image := img);
      (s.(recipes := s.recipes[recipeId := row]), Ok("Recipe updated", None))
  }

  /** `delete_recipe`: existence check, then ownership check, then the row goes; a route id outside 64 bits fails to bind. */
  function DeleteRecipe(s: State, recipeId: nat, ownerId: nat): (out: (State, Reply))
    ensures !out.1.Ok? ==> out.0 == s
    ensures WellFormed(s) ==> WellFormed(out.0)
    ensures out.0.users == s.users
  {
    if !Bindable(recipeId) then (s, Crash)
    else if recipeId !in s.recipes then (s, Err(404, "Recipe not found"))
    else if s.recipes[recipeId].ownerId != ownerId then (s, Err(403, "Not allowed"))
    else (s.(recipes := s.recipes - {recipeId}), Ok("Recipe deleted", None))
  }

  /** A request to one of the handlers that change the tables. */
  datatype Request =
    | RegisterRequest(salt: string, username: Field, password: Field)
    | AddRecipeRequest(title: Field, description: Field, owner: Option<int>, image: Field)
    | EditRecipeRequest(recipeId: nat, ownerId: nat, title: Field, description: Field, image: Field)
    | DeleteRecipeRequest(recipeId: nat, ownerId: nat)

  /**
   * Dispatch a request to its handler. No handler removes or rewrites a
   * user, no handler lowers an AUTOINCREMENT counter, and the
   * well-formedness of the tables survives every one.
   */
  function Handle(s: State, h: Hasher, req: Request): (out: (State, Reply))
    ensures WellFormed(s) ==> WellFormed(out.0) && UsersKept(s, out.0)
    ensures out.0.lastUserId >= s.lastUserId && out.0.lastRecipeId >= s.lastRecipeId
  {
    match req
    case RegisterRequest(salt, u, p) => Register(s, h, salt, u, p)
    case AddRecipeRequest(t, d, o, i) => AddRecipe(s, t, d, o, i)
    case EditRecipeRequest(r, o, t, d, i) => EditRecipe(s, r, o, t, d, i)
    case DeleteRecipeRequest(r, o) => DeleteRecipe(s, r, o)
  }

  /** The tables after handling `reqs` one after the other, starting from `s`. */
  function Run(s: State, h: Hasher, reqs: seq<Request>): (t: State)
    decreases |reqs|
    ensures WellFormed(s) ==> WellFormed(t) && UsersKept(s, t)
    ensures t.lastUserId >= s.lastUserId && t.lastRecipeId >= s.lastRecipeId
  {
    if reqs == [] then s else Run(Handle(s, h, reqs[0]).0, h, reqs[1..])
  }

  /** The members of `ids` between 1 and `k`, largest first: `ORDER BY id DESC`. */
  function Descending(ids: set<int>, k: int): (r: seq<int>)
    decreases k
    ensures forall i :: 0 <= i < |r| ==> r[i] in ids && 1 <= r[i] <= k
    ensures forall id :: id in ids && 1 <= id <= k ==> id in r
    ensures forall i, j :: 0 <= i < j < |r| ==> r[i] > r[j]
  {
    if k <= 0 then []
    else (if k in ids then [k] else []) + Descending(ids, k - 1)
  }

  /** An element of the `/my_recipes` listing. */
  datatype MyRow = MyRow(id: int, title: string, description: Option<string>, image: Option<string>)

  /** An element of the `/recipes` listing, with the owner's username. */
  datatype Row = Row(id: int, title: string, description: Option<string>, image: Option<string>, owner: string)

  /** The `/my_recipes` element for recipe `id`. */
  function MyRowOf(s: State, id: int): MyRow
    requires id in s.recipes
  {
    var r := s.recipes[id];
    MyRow(id, r.title, r.description, r.image)
  }

  /** The `/recipes` element for recipe `id`, whose owner is a user. */
  function RowOf(s: State, id: int): Row
    requires id in s.recipes && s.recipes[id].ownerId in s.users
  {
    var r := s.recipes[id];
    Row(id, r.title, r.description, r.image, s.users[r.ownerId].username)
  }

  /** The selected columns of the recipes `ids`, in the order of `ids`. */
  function MyRowsOf(s: State, ids: seq<int>): (rows: seq<MyRow>)
    requires forall i :: 0 <= i < |ids| ==> ids[i] in s.recipes
    ensures |rows| == |ids|
    ensures forall i :: 0 <= i < |ids| ==> rows[i] == MyRowOf(s, ids[i]) && rows[i].id == ids[i]
  {
    if ids == [] then [] else [MyRowOf(s, ids[0])] + MyRowsOf(s, ids[1..])
  }

  /** The joined rows of the recipes `ids`, in the order of `ids`. */
  function RowsOf(s: State, ids: seq<int>): (rows: seq<Row>)
    requires forall i :: 0 <= i < |ids| ==> ids[i] in s.recipes && s.recipes[ids[i]].ownerId in s.users
    ensures |rows| == |ids|
    ensures forall i :: 0 <= i < |ids| ==> rows[i] == RowOf(s, ids[i]) && rows[i].id == ids[i]
  {
    if ids == [] then [] else [RowOf(s, ids[0])] + RowsOf(s, ids[1..])
  }

  /** The ids of the recipes `userId` owns: `WHERE owner_id=?`. */
  function Owned(s: State, userId: int): set<int> {
    set id | id in s.recipes && s.recipes[id].ownerId == userId
  }

  /** The ids of the recipes whose owner is a user: what the inner join keeps. */
  function Joined(s: State): set<int> {
    set id | id in s.recipes && s.recipes[id].ownerId in s.users
  }

  /**
   * Listing the owned ids up to a bound `k` on all recipe ids gives exactly
   * the owned recipes, each with its columns, largest id first.
   */
  lemma MyListing(s: State, userId: int, k: int, rows: seq<MyRow>)
    requires forall id :: id in s.recipes ==> 1 <= id <= k
    requires rows == MyRowsOf(s, Descending(Owned(s, userId), k))
    ensures forall i :: 0 <= i < |rows| ==>
              rows[i].id in s.recipes && s.recipes[rows[i].id].ownerId == userId && rows[i] == MyRowOf(s, rows[i].id)
    ensures forall id :: id in s.recipes && s.recipes[id].ownerId == userId ==>
              exists i :: 0 <= i < |rows| && rows[i].id == id
    ensures forall i, j :: 0 <= i < j < |rows| ==> rows[i].id > rows[j].id
  {
    var ids := Descending(Owned(s, userId), k);
    forall i | 0 <= i < |rows|
      ensures rows[i].id in s.recipes && s.recipes[rows[i].id].ownerId == userId && rows[i] == MyRowOf(s, rows[i].id)
    {
      assert rows[i].id == ids[i] && ids[i] in Owned(s, userId);
    }
    forall id | id in s.recipes && s.recipes[id].ownerId == userId
      ensures exists i :: 0 <= i < |rows| && rows[i].id == id
    {
      assert id in Owned(s, userId);
      var i :| 0 <= i < |ids| && ids[i] == id;
      assert rows[i].id == id;
    }
    forall i, j | 0 <= i < j < |rows|
      ensures rows[i].id > rows[j].id
    {
      assert rows[i].id == ids[i] && rows[j].id == ids[j];
    }
  }

  /**
   * Listing the joined ids up to a bound `k` on all recipe ids gives exactly
   * the recipes whose owner is a user, each with its columns and its
   * owner's username, largest id first.
   */
  lemma AllListing(s: State, k: int, rows: seq<Row>)
    requires forall id :: id in s.recipes ==> 1 <= id <= k
    requires rows == RowsOf(s, Descending(Joined(s), k))
    ensures forall i :: 0 <= i < |rows| ==>
              rows[i].id in s.recipes && s.recipes[rows[i].id].ownerId in s.users && rows[i] == RowOf(s, rows[i].id)
    ensures forall id :: id in s.recipes && s.recipes[id].ownerId in s.users ==>
              exists i :: 0 <= i < |rows| && rows[i].id == id
    ensures forall i, j :: 0 <= i < j < |rows| ==> rows[i].id > rows[j].id
  {
    var ids := Descending(Joined(s), k);
    forall i | 0 <= i < |rows|
      ensures rows[i].id in s.recipes && s.recipes[rows[i].id].ownerId in s.users && rows[i] == RowOf(s, rows[i].id)
    {
      assert rows[i].id == ids[i] && ids[i] in Joined(s);
    }
    forall id | id in s.recipes && s.recipes[id].ownerId in s.users
      ensures exists i :: 0 <= i < |rows| && rows[i].id == id
    {
      assert id in Joined(s);
      var i :| 0 <= i < |ids| && ids[i] == id;
      assert rows[i].id == id;
    }
    forall i, j | 0 <= i < j < |rows|
      ensures rows[i].id > rows[j].id
    {
      assert rows[i].id == ids[i] && rows[j].id == ids[j];
    }
  }

  /**
   * The rows of `get_my_recipes`' query: exactly the recipes whose owner is
   * `userId`, with their stored columns, in strictly descending id order.
   */
  function MyRecipes(s: State, userId: nat): (rows: seq<MyRow>)
    requires WellFormed(s)
    ensures forall i :: 0 <= i < |rows| ==>
              rows[i].id in s.recipes && s.recipes[rows[i].id].ownerId == userId && rows[i] == MyRowOf(s, rows[i].id)
    ensures forall id :: id in s.recipes && s.recipes[id].ownerId == userId ==>
              exists i :: 0 <= i < |rows| && rows[i].id == id
    ensures forall i, j :: 0 <= i < j < |rows| ==> rows[i].id > rows[j].id
  {
    var rows := MyRowsOf(s, Descending(Owned(s, userId), s.lastRecipeId));
    MyListing(s, userId, s.lastRecipeId, rows);
    rows
  }

  /**
   * `get_my_recipes` as a reply: a user id outside 64 bits fails to bind and
   * the exception escapes (None); any other gets the query's rows.
   */
  function MyRecipesReply(s: State, userId: nat): (r: Option<seq<MyRow>>)
    requires WellFormed(s)
    ensures r.None? <==> userId > Int64Max
    ensures r.Some? ==> r.value == MyRecipes(s, userId)
  {
    if Bindable(userId) then Some(MyRecipes(s, userId)) else None
  }

  /**
   * `get_recipes`: exactly the recipes whose owner is a user (the inner
   * join drops the others), each with its owner's username, in strictly
   * descending id order.
   */
  function AllRecipes(s: State): (rows: seq<Row>)
    requires WellFormed(s)
    ensures forall i :: 0 <= i < |rows| ==>
              rows[i].id in s.recipes && s.recipes[rows[i].id].ownerId in s.users && rows[i] == RowOf(s, rows[i].id)
    ensures forall id :: id in s.recipes && s.recipes[id].ownerId in s.users ==>
              exists i :: 0 <= i < |rows| && rows[i].id == id
    ensures forall i, j :: 0 <= i < j < |rows| ==> rows[i].id > rows[j].id
  {
    var rows := RowsOf(s, Descending(Joined(s), s.lastRecipeId));
    AllListing(s, s.lastRecipeId, rows);
    rows
  }
}
