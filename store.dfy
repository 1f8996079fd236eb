/**
 * The recipe service as the object the handlers share: the two tables and
 * their AUTOINCREMENT counters are fields that the mutating handlers update
 * in place. Each method is proved to produce the new tables and the reply
 * that the matching function of RecipeService gives, and to keep the
 * tables well formed. The read-only handlers (`login`, `get_recipes`,
 * `get_my_recipes`) are the functions RecipeService.Login,
 * RecipeService.AllRecipes and RecipeService.MyRecipesReply applied to State().
 */
module RecipeStore {
  import opened Optional
  import opened PyText
  import opened RecipeService

  class Store {
    var users: map<int, User>
    var recipes: map<int, Recipe>
    var lastUserId: int
    var lastRecipeId: int
    const hasher: Hasher

    /** The tables as a value. */
    function State(): RecipeService.State
      reads this
    {
      RecipeService.State(users, recipes, lastUserId, lastRecipeId)
    }

    ghost predicate Valid()
      reads this
    {
      WellFormed(State()) && Sound(hasher)
    }

    /** `init_db`: both tables created empty. */
    constructor (hasher: Hasher)
      requires Sound(hasher)
      ensures Valid() && State() == Init && this.hasher == hasher
    {
      users, recipes := map[], map[];
      lastUserId, lastRecipeId := 0, 0;
      this.hasher := hasher;
    }

    /** `register`; `salt` is the randomness the digest draws. */
    method Register(username: Field, password: Field, salt: string) returns (reply: Reply)
      requires Valid()
      modifies this
      ensures Valid()
      ensures (State(), reply) == RecipeService.Register(old(State()), hasher, salt, username, password)
    {
      ghost var spec := RecipeService.Register(State(), hasher, salt, username, password);
      var u := GetDefault(username, "");
      var p := GetDefault(password, "");
      if u.None? || p.None? {
        return Crash;
      }
      var name := Strip(u.value);
      var pw := Strip(p.value);
      if name == [] || pw == [] {
        return Err(400, MissingCredentials);
      }
      if lastUserId >= Int64Max {  // AUTOINCREMENT raises SQLITE_FULL, caught by `except Exception`
        return Err(500, DatabaseFull);
      }
      if UsernameTaken(users, name) {  // the INSERT would violate UNIQUE(username)
        return Err(400, "User already exists");
      }
      var id := lastUserId + 1;
      users := users[id := User(name, hasher.hash(salt, pw))];
      lastUserId := id;
      reply := Ok("Registered", Some(id));
      assert spec == (State(), reply);
    }

    /** `add_recipe`. */
    method AddRecipe(title: Field, description: Field, ownerId: Option<int>, image: Field) returns (reply: Reply)
      requires Valid()
      modifies this
      ensures Valid()
      ensures (State(), reply) == RecipeService.AddRecipe(old(State()), title, description, ownerId, image)
    {
      ghost var spec := RecipeService.AddRecipe(State(), title, description, ownerId, image);
      var t := GetDefault(title, "");
      var d := GetDefault(description, "");
      if t.None? || d.None? {
        return Crash;
      }
      var tt := Strip(t.value);
      if tt == [] || ownerId.None? {
        return Err(400, "Missing title or owner_id");
      }
      if !Bindable(ownerId.value) || lastRecipeId >= Int64Max {  // OverflowError or SQLITE_FULL escapes
        return Crash;
      }
      var id := lastRecipeId + 1;
      recipes := recipes[id := Recipe(tt, Some(Strip(d.value)), ownerId.value, Get(image))];
      lastRecipeId := id;
      reply := Ok("Recipe added", Some(id));
      assert spec == (State(), reply);
    }

    /** `edit_recipe`. */
    method EditRecipe(recipeId: nat, ownerId: nat, title: Field, description: Field, image: Field) returns (reply: Reply)
      requires Valid()
      modifies this
      ensures Valid()
      ensures (State(), reply) == RecipeService.EditRecipe(old(State()), recipeId, ownerId, title, description, image)
    {
      if !Bindable(recipeId) {  // OverflowError binding the route id
        return Crash;
      }
      if recipeId !in recipes {
        return Err(404, "Recipe not found");
      }
      var stored := recipes[recipeId];
      if stored.ownerId != ownerId {
        return Err(403, "Not allowed");
      }
      var newTitle := Get(title);
      if newTitle.None? {
        return Crash;
      }
      var newImage := Get(image);
      if newImage.Some? {
        recipes := recipes[recipeId := stored.(title := newTitle.value, description := Get(description), image := newImage)];
      } else {
        recipes := recipes[recipeId := stored.(title := newTitle.value, description := Get(description))];
      }
      reply := Ok("Recipe updated", None);
    }

    /** `delete_recipe`. */
    method DeleteRecipe(recipeId: nat, ownerId: nat) returns (reply: Reply)
      requires Valid()
      modifies this
      ensures Valid()
      ensures (State(), reply) == RecipeService.DeleteRecipe(old(State()), recipeId, ownerId)
    {
      if !Bindable(recipeId) {  // OverflowError binding the route id
        return Crash;
      }
      if recipeId !in recipes {
        return Err(404, "Recipe not found");
      }
      if recipes[recipeId].ownerId != ownerId {
        return Err(403, "Not allowed");
      }
      recipes := recipes - {recipeId};
      reply := Ok("Recipe deleted", None);
    }
  }
}
