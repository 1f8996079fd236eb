/**
 * What the recipe service promises, stated over the handler functions of
 * RecipeService: validation, duplicate rejection, indistinguishable login
 * failures, fresh ids, the existence-before-ownership checks of edit and
 * delete, the image-keeping edit, the single-row delete and the ordering
 * of the listings.
 */
module RecipeServiceProperties {
  import opened Optional
  import opened PyText
  import opened RecipeService

  // ---------------------------------------------------------------- register / login

  /**
   * A username or password that is empty after stripping is rejected with
   * 400 by register and by login alike, and register leaves the tables as
   * they were. An absent key counts as the empty string.
   */
  lemma BlankCredentialsRejected(s: State, h: Hasher, salt: string, username: Field, password: Field)
    requires WellFormed(s)
    requires username.Str? || username.Absent?
    requires password.Str? || password.Absent?
    requires Strip(GetDefault(username, "").value) == [] || Strip(GetDefault(password, "").value) == []
    ensures Register(s, h, salt, username, password) == (s, Err(400, MissingCredentials))
    ensures Login(s, h, username, password) == Err(400, MissingCredentials)
  {
  }

  /** A JSON `null` for username or password makes `.strip()` raise: a 500 with the tables untouched. */
  lemma NullCredentialsCrash(s: State, h: Hasher, salt: string, username: Field, password: Field)
    requires WellFormed(s)
    requires username.Null? || password.Null?
    ensures Register(s, h, salt, username, password) == (s, Crash)
    ensures Login(s, h, username, password) == Crash
  {
  }

  /**
   * Registering a taken username fails with 400 "User already exists" and
   * changes nothing; only a full AUTOINCREMENT counter, whose error comes
   * first, answers 500 instead.
   */
  lemma DuplicateUsernameRejected(s: State, h: Hasher, salt: string, u: string, p: string)
    requires Strip(u) != [] && Strip(p) != []
    requires UsernameTaken(s.users, Strip(u))
    ensures s.lastUserId < Int64Max ==> Register(s, h, salt, Str(u), Str(p)) == (s, Err(400, "User already exists"))
    ensures s.lastUserId >= Int64Max ==> Register(s, h, salt, Str(u), Str(p)) == (s, Err(500, DatabaseFull))
  {
  }

  /**
   * Register succeeds exactly when both strings are present, non-blank
   * after stripping, the stripped username is free and the largest id is
   * not yet taken. It then adds one
   * user, under an id never used before, holding the stripped username and
   * the digest of the stripped password; nothing else changes.
   */
  lemma RegisterAddsOneUser(s: State, h: Hasher, salt: string, username: Field, password: Field)
    requires WellFormed(s)
    ensures var out := Register(s, h, salt, username, password);
            out.1.Ok? <==> (&& !username.Null? && !password.Null?
                            && Strip(GetDefault(username, "").value) != [] && Strip(GetDefault(password, "").value) != []
                            && s.lastUserId < Int64Max
                            && !UsernameTaken(s.users, Strip(GetDefault(username, "").value)))
    ensures var out := Register(s, h, salt, username, password);
            out.1.Ok? ==>
              var id := s.lastUserId + 1;
              && id !in s.users
              && out.1.id == Some(id)
              && out.0.users == s.users[id := User(Strip(GetDefault(username, "").value), h.hash(salt, Strip(GetDefault(password, "").value)))]
              && |out.0.users| == |s.users| + 1
              && out.0.recipes == s.recipes
  {
  }

  /** The stored usernames are unique: at most one id answers to a name. */
  lemma UsernamesUnique(s: State, a: int, b: int)
    requires WellFormed(s)
    requires a in s.users && b in s.users && s.users[a].username == s.users[b].username
    ensures a == b
  {
  }

  /**
   * A user whose digest was made from the stripped password logs in with
   * that password and gets their own id back.
   */
  lemma LoginFindsUser(s: State, h: Hasher, salt: string, id: int, u: string, p: string)
    requires WellFormed(s) && Sound(h)
    requires id in s.users && s.users[id].username == Strip(u)
    requires Strip(p) != [] && s.users[id].digest == h.hash(salt, Strip(p))
    ensures Login(s, h, Str(u), Str(p)) == Ok("Login success", Some(id))
  {
    var found := FindUser(s.users, Strip(u), s.lastUserId);
    assert found.Some? && found.value == id;
  }

  /** Register then login with the same credentials: the login returns the id the registration issued. */
  lemma LoginAfterRegister(s: State, h: Hasher, salt: string, u: string, p: string)
    requires WellFormed(s) && Sound(h)
    requires Register(s, h, salt, Str(u), Str(p)).1.Ok?
    ensures var out := Register(s, h, salt, Str(u), Str(p));
            Login(out.0, h, Str(u), Str(p)) == Ok("Login success", out.1.id)
  {
    var out := Register(s, h, salt, Str(u), Str(p));
    RegisterAddsOneUser(s, h, salt, Str(u), Str(p));
    LoginFindsUser(out.0, h, salt, s.lastUserId + 1, u, p);
  }

  /**
   * The same holds however many requests come in between: nothing removes
   * or rewrites a user, so a registered user keeps logging in under the id
   * registration gave them.
   */
  lemma LoginAfterRegisterThenRequests(s: State, h: Hasher, salt: string, u: string, p: string, later: seq<Request>)
    requires WellFormed(s) && Sound(h)
    requires Register(s, h, salt, Str(u), Str(p)).1.Ok?
    ensures var out := Register(s, h, salt, Str(u), Str(p));
            var t := Run(out.0, h, later);
            WellFormed(t) && Login(t, h, Str(u), Str(p)) == Ok("Login success", out.1.id)
  {
    var out := Register(s, h, salt, Str(u), Str(p));
    var id := s.lastUserId + 1;
    RegisterAddsOneUser(s, h, salt, Str(u), Str(p));
    var t := Run(out.0, h, later);
    assert id in t.users && t.users[id] == out.0.users[id];
    LoginFindsUser(t, h, salt, id, u, p);
  }

  /**
   * An unknown username and a wrong password are answered with the same
   * 401 "Invalid credentials", so the reply does not tell them apart.
   */
  lemma LoginFailuresAlike(s: State, h: Hasher, u: string, p: string)
    requires WellFormed(s)
    requires Strip(u) != [] && Strip(p) != []
    ensures !UsernameTaken(s.users, Strip(u)) ==> Login(s, h, Str(u), Str(p)) == Err(401, InvalidCredentials)
    ensures forall id :: id in s.users && s.users[id].username == Strip(u) && !h.verify(s.users[id].digest, Strip(p))
              ==> Login(s, h, Str(u), Str(p)) == Err(401, InvalidCredentials)
  {
    forall id | id in s.users && s.users[id].username == Strip(u) && !h.verify(s.users[id].digest, Strip(p))
      ensures Login(s, h, Str(u), Str(p)) == Err(401, InvalidCredentials)
    {
      var found := FindUser(s.users, Strip(u), s.lastUserId);
      assert found.Some? && found.value == id;
    }
  }

  // ---------------------------------------------------------------- add_recipe

  /**
   * Add succeeds exactly when title and description are present, the
   * stripped title is non-empty, an owner is given that fits in 64 bits,
   * and the largest id is not yet taken; whether the owner is a user plays
   * no part. It then adds one recipe under a fresh id,
   * holding the stripped title and description, the owner and the image
   * (absent when none was sent); users are untouched.
   */
  lemma AddRecipeInsertsOne(s: State, title: Field, description: Field, ownerId: Option<int>, image: Field)
    requires WellFormed(s)
    ensures var out := AddRecipe(s, title, description, ownerId, image);
            out.1.Ok? <==> (&& !title.Null? && !description.Null? && Strip(GetDefault(title, "").value) != []
                            && ownerId.Some? && Bindable(ownerId.value) && s.lastRecipeId < Int64Max)
    ensures var out := AddRecipe(s, title, description, ownerId, image);
            out.1.Ok? ==>
              var id := s.lastRecipeId + 1;
              && id !in s.recipes
              && out.1.id == Some(id)
              && out.0.recipes == s.recipes[id := Recipe(Strip(GetDefault(title, "").value), Some(Strip(GetDefault(description, "").value)),
                                                         ownerId.value, Get(image))]
              && |out.0.recipes| == |s.recipes| + 1
              && out.0.users == s.users
  {
  }

  /** A blank title or a missing owner: 400 "Missing title or owner_id", nothing inserted. */
  lemma AddRecipeRejected(s: State, title: string, description: string, ownerId: Option<int>, image: Field)
    requires Strip(title) == [] || ownerId.None?
    ensures AddRecipe(s, Str(title), Str(description), ownerId, image) == (s, Err(400, "Missing title or owner_id"))
  {
  }

  /** The recipe with the largest id issued so far heads its owner's listing. */
  lemma {:induction false} LatestHeadsMyRecipes(s: State, owner: nat)
    requires WellFormed(s)
    requires s.lastRecipeId in s.recipes && s.recipes[s.lastRecipeId].ownerId == owner
    ensures var rows := MyRecipes(s, owner);
            |rows| > 0 && rows[0] == MyRowOf(s, s.lastRecipeId)
  {
    var rows := MyRecipes(s, owner);
    var i :| 0 <= i < |rows| && rows[i].id == s.lastRecipeId;
  }

  /**
   * The recipe just added heads its owner's `get_my_recipes` listing, with
   * the stripped title and description and the image as sent. The add
   * fails only for an owner id outside 64 bits or a full counter.
   */
  lemma AddedRecipeListedFirst(s: State, title: string, description: string, owner: nat, image: Field)
    requires WellFormed(s)
    requires Strip(title) != []
    ensures var out := AddRecipe(s, Str(title), Str(description), Some(owner), image);
            out.1.Ok? <==> owner <= Int64Max && s.lastRecipeId < Int64Max
    ensures var out := AddRecipe(s, Str(title), Str(description), Some(owner), image);
            var rows := MyRecipes(out.0, owner);
            out.1.Ok? ==>
              |rows| > 0 && rows[0] == MyRow(s.lastRecipeId + 1, Strip(title), Some(Strip(description)), Get(image))
  {
    var out := AddRecipe(s, Str(title), Str(description), Some(owner), image);
    if owner <= Int64Max && s.lastRecipeId < Int64Max {
      var id := s.lastRecipeId + 1;
      var row := Recipe(Strip(title), Some(Strip(description)), owner, Get(image));
      assert out.0 == s.(recipes := s.recipes[id := row], lastRecipeId := id);
      LatestHeadsMyRecipes(out.0, owner);
    }
  }

  // ---------------------------------------------------------------- edit_recipe / delete_recipe

  /**
   * Edit and delete of an id with no recipe answer 404 whoever asks and
   * whatever is sent: the existence check comes before the ownership check.
   * An id outside 64 bits cannot even be bound into that query: a 500.
   */
  lemma MissingRecipeNotFound(s: State, recipeId: nat, ownerId: nat, title: Field, description: Field, image: Field)
    requires recipeId !in s.recipes
    ensures EditRecipe(s, recipeId, ownerId, title, description, image)
            == (s, if recipeId <= Int64Max then Err(404, "Recipe not found") else Crash)
    ensures DeleteRecipe(s, recipeId, ownerId)
            == (s, if recipeId <= Int64Max then Err(404, "Recipe not found") else Crash)
  {
  }

  /** Edit and delete by anyone but the stored owner answer 403 and change nothing, whatever is sent. */
  lemma OtherOwnerForbidden(s: State, recipeId: nat, ownerId: nat, title: Field, description: Field, image: Field)
    requires WellFormed(s)
    requires recipeId in s.recipes && s.recipes[recipeId].ownerId != ownerId
    ensures EditRecipe(s, recipeId, ownerId, title, description, image) == (s, Err(403, "Not allowed"))
    ensures DeleteRecipe(s, recipeId, ownerId) == (s, Err(403, "Not allowed"))
  {
  }

  /**
   * The owner's edit with a title overwrites title and description as sent
   * (a missing description becomes NULL); the image is replaced when one is
   * sent, even an empty one, and kept otherwise. Every other recipe, the
   * users and the counters stay as they were.
   */
  lemma EditByOwner(s: State, recipeId: nat, title: string, description: Field, image: Field)
    requires WellFormed(s)
    requires recipeId in s.recipes && s.recipes[recipeId].ownerId >= 0
    ensures var stored := s.recipes[recipeId];
            var out := EditRecipe(s, recipeId, stored.ownerId, Str(title), description, image);
            && out.1 == Ok("Recipe updated", None)
            && out.0.recipes.Keys == s.recipes.Keys
            && out.0.recipes[recipeId].title == title
            && out.0.recipes[recipeId].description == Get(description)
            && out.0.recipes[recipeId].ownerId == stored.ownerId
            && (image.Str? ==> out.0.recipes[recipeId].image == Some(image.text))
            && (!image.Str? ==> out.0.recipes[recipeId].image == stored.image)
            && (forall id :: id in s.recipes && id != recipeId ==> out.0.recipes[id] == s.recipes[id])
            && out.0.users == s.users && out.0.lastUserId == s.lastUserId && out.0.lastRecipeId == s.lastRecipeId
  {
  }

  /** The owner's edit without a title violates NOT NULL: a 500, and the rollback leaves everything as it was. */
  lemma EditWithoutTitleRollsBack(s: State, recipeId: nat, title: Field, description: Field, image: Field)
    requires WellFormed(s)
    requires recipeId in s.recipes && s.recipes[recipeId].ownerId >= 0
    requires !title.Str?
    ensures EditRecipe(s, recipeId, s.recipes[recipeId].ownerId, title, description, image) == (s, Crash)
  {
  }

  /**
   * The owner's delete removes exactly that recipe: one row fewer, every
   * other recipe and every user unchanged, and neither listing shows it
   * afterwards.
   */
  lemma DeleteByOwner(s: State, recipeId: nat)
    requires WellFormed(s)
    requires recipeId in s.recipes && s.recipes[recipeId].ownerId >= 0
    ensures var out := DeleteRecipe(s, recipeId, s.recipes[recipeId].ownerId);
            && out.1 == Ok("Recipe deleted", None)
              && out.0.recipes == s.recipes - {recipeId}
              && |out.0.recipes| == |s.recipes| - 1
              && out.0.users == s.users
              && out.0.lastUserId == s.lastUserId && out.0.lastRecipeId == s.lastRecipeId
              && (forall i :: 0 <= i < |AllRecipes(out.0)| ==> AllRecipes(out.0)[i].id != recipeId)
              && (forall u: nat, i :: 0 <= i < |MyRecipes(out.0, u)| ==> MyRecipes(out.0, u)[i].id != recipeId)
  {
  }

  /**
   * An integer outside 64 bits cannot be bound into a query: an owner id
   * on add (once the request is otherwise valid), a route id on edit or
   * delete and a user id on `get_my_recipes` all end in a 500 with the
   * tables untouched.
   */
  lemma UnbindableIdsCrash(s: State, n: int, title: string, description: Field, image: Field, ownerId: nat)
    requires WellFormed(s)
    requires Strip(title) != [] && !description.Null?
    requires n > Int64Max
    ensures AddRecipe(s, Str(title), description, Some(n), image) == (s, Crash)
    ensures AddRecipe(s, Str(title), description, Some(-n - 1), image) == (s, Crash)
    ensures EditRecipe(s, n, ownerId, Str(title), description, image) == (s, Crash)
    ensures DeleteRecipe(s, n, ownerId) == (s, Crash)
    ensures MyRecipesReply(s, n) == None
  {
  }

  // ---------------------------------------------------------------- whole runs

  /** Every sequence of requests from the empty tables of `init_db` ends in well-formed tables. */
  lemma ReachableWellFormed(h: Hasher, reqs: seq<Request>)
    ensures WellFormed(Run(Init, h, reqs))
  {
  }

  /**
   * AUTOINCREMENT never reuses an id: whatever requests come in between, a
   * later insert gets an id above every id the table held or had issued
   * before, so no user and no recipe that existed then, deleted or not,
   * shares it.
   */
  lemma IdsNeverReused(s: State, h: Hasher, reqs: seq<Request>, salt: string, username: Field, password: Field,
                       title: Field, description: Field, ownerId: Option<int>, image: Field)
    requires WellFormed(s)
    ensures var t := Run(s, h, reqs);
            var reg := Register(t, h, salt, username, password);
            reg.1.Ok? ==> reg.1.id.Some? && reg.1.id.value > s.lastUserId && reg.1.id.value !in s.users
    ensures var t := Run(s, h, reqs);
            var add := AddRecipe(t, title, description, ownerId, image);
            add.1.Ok? ==> add.1.id.Some? && add.1.id.value > s.lastRecipeId && add.1.id.value !in s.recipes
  {
    var t := Run(s, h, reqs);
    assert t.lastUserId >= s.lastUserId && t.lastRecipeId >= s.lastRecipeId;
  }

  /** No id of `ids` is at most `k`: the listing up to `k` is empty. */
  lemma {:induction false} DescendingEmpty(ids: set<int>, k: int)
    requires forall id :: id in ids ==> id > k
    decreases k
    ensures Descending(ids, k) == []
  {
    if k > 0 {
      DescendingEmpty(ids, k - 1);
    }
  }

  /** A single id up to `k` is listed on its own. */
  lemma {:induction false} DescendingSingleton(id: int, k: int)
    requires 1 <= id <= k
    decreases k
    ensures Descending({id}, k) == [id]
  {
    if k == id {
      DescendingEmpty({id}, k - 1);
    } else {
      DescendingSingleton(id, k - 1);
    }
  }

  /** With one recipe, whose owner is a user, `/recipes` lists exactly that recipe. */
  lemma OneRecipeListed(s: State, id: int)
    requires WellFormed(s)
    requires s.recipes.Keys == {id} && s.recipes[id].ownerId in s.users
    ensures AllRecipes(s) == [RowOf(s, id)]
  {
    assert Joined(s) == {id};
    DescendingSingleton(id, s.lastRecipeId);
    assert RowsOf(s, [id]) == [RowOf(s, id)] + RowsOf(s, []);
  }

  /** With no recipes, `/recipes` is empty. */
  lemma NoRecipesNoListing(s: State)
    requires WellFormed(s) && s.recipes == map[]
    ensures AllRecipes(s) == []
  {
    assert Joined(s) == {};
    DescendingEmpty({}, s.lastRecipeId);
  }

  /** The first registration on empty tables: alice gets id 1 and can log in. */
  lemma AliceRegisters(h: Hasher, salt: string)
    requires Sound(h)
    ensures var r1 := Register(Init, h, salt, Str("alice"), Str("pw1"));
            && r1 == (State(map[1 := User("alice", h.hash(salt, "pw1"))], map[], 1, 0), Ok("Registered", Some(1)))
            && Login(r1.0, h, Str("alice"), Str("pw1")) == Ok("Login success", Some(1))
  {
    assert Strip("alice") == "alice" && Strip("pw1") == "pw1";
    LoginAfterRegister(Init, h, salt, "alice", "pw1");
  }

  /** User 1's first recipe "Soup", sent without description and image, gets id 1 and is listed under her name. */
  lemma SoupAdded(digest: string)
    ensures var s1 := State(map[1 := User("alice", digest)], map[], 1, 0);
            var r2 := AddRecipe(s1, Str("Soup"), Absent, Some(1), Absent);
            && r2 == (s1.(recipes := map[1 := Recipe("Soup", Some(""), 1, None)], lastRecipeId := 1), Ok("Recipe added", Some(1)))
            && WellFormed(r2.0)
            && AllRecipes(r2.0) == [Row(1, "Soup", Some(""), None, "alice")]
  {
    assert Strip("Soup") == "Soup" && Strip("") == "";
    assert IsStripped("alice");
    var s2 := State(map[1 := User("alice", digest)], map[1 := Recipe("Soup", Some(""), 1, None)], 1, 1);
    OneRecipeListed(s2, 1);
  }

  /**
   * A whole session from the empty tables: alice registers and can log in,
   * adds "Soup", which `/recipes` lists under her name; deleting it as user
   * 2 is refused with 403, deleting it as alice succeeds, and the listing is
   * empty again.
   */
  lemma AliceSession(h: Hasher, salt: string)
    requires Sound(h)
    ensures var r1 := Register(Init, h, salt, Str("alice"), Str("pw1"));
            var r2 := AddRecipe(r1.0, Str("Soup"), Absent, Some(1), Absent);
            var r3 := DeleteRecipe(r2.0, 1, 2);
            var r4 := DeleteRecipe(r3.0, 1, 1);
            && r1.1 == Ok("Registered", Some(1))
            && Login(r1.0, h, Str("alice"), Str("pw1")) == Ok("Login success", Some(1))
            && r2.1 == Ok("Recipe added", Some(1))
            && AllRecipes(r2.0) == [Row(1, "Soup", Some(""), None, "alice")]
            && r3 == (r2.0, Err(403, "Not allowed"))
            && r4.1 == Ok("Recipe deleted", None)
            && AllRecipes(r4.0) == []
  {
    AliceRegisters(h, salt);
    SoupAdded(h.hash(salt, "pw1"));
    var s4 := State(map[1 := User("alice", h.hash(salt, "pw1"))], map[], 1, 1);
    assert map[1 := Recipe("Soup", Some(""), 1, None)] - {1} == map[];
    NoRecipesNoListing(s4);
  }
}
