# Recipe service and frontend escapers, modelled in Dafny

The recipe-sharing app keeps two SQLite tables. `users` holds a unique username and a password digest. `recipes` holds a title, a description, an owner id and a base64 image. Both are keyed by AUTOINCREMENT ids. The Flask handlers `register`, `login`, `add_recipe`, `get_recipes`, `get_my_recipes`, `edit_recipe` and `delete_recipe` read and change these tables. The frontend builds its HTML with two string escapers, `escapeHtml` and `escapeJs`.

The project has these files:

- `optional.dfy`: `Option`.
- `text.dfy` (module `PyText`): Python's `str.strip()`, with the full `str.isspace()` character set.
- `service.dfy` (module `RecipeService`): the tables as a value `State`. Each handler is a pure function from the old tables and the request to the new tables and the reply. A `Reply` is one of three things: a 200 with a message and an optional id; an error code with its message; or `Crash`, an exception that escapes the handler, which Flask answers with 500. The tables are then unchanged, either because no connection was open yet or because the connection's context manager rolled back. Every integer a handler binds into a query must fit in 64 bits: `sqlite3` raises OverflowError for any other, and AUTOINCREMENT stops at 2^63-1. A JSON key is a `Field`: absent, `null` or a string. This matters because `data.get(k, "")` gives the default only for an absent key, and `.strip()` on a `null` raises. Password hashing is a `Hasher`, a pair of function values. The salt is an explicit argument standing for the randomness of `generate_password_hash`. `Sound(h)` is the one property the model assumes of them: a digest verifies against the password it was made from.
- `store.dfy` (module `RecipeStore`): the shared store as a class `Store`. Its fields are the two maps and the two AUTOINCREMENT counters. One method per mutating handler updates them in place. Each method is proved to keep the tables well formed and to produce exactly the new state and reply of the matching `RecipeService` function. The read-only handlers are the functions `Login`, `MyRecipesReply` and `AllRecipes` applied to `Store.State()`.
- `service_properties.dfy` (module `RecipeServiceProperties`): what the handlers promise, as lemmas over the functions.
- `escape.dfy` (module `Escape`): the escapers as chains of global replacements. Each chain is proved equal to a one-pass per-character escaper. The output properties, and round trips through a decoder of the escapes each one writes, are proved about those.

Three behaviours of the code that the model keeps as written:

- `edit_recipe` neither strips nor validates title and description. A request without a title fails on the NOT NULL constraint, which gives a 500 and a rollback.
- `login` strips the password as well as the username.
- `add_recipe` stores an owner id without checking that it names a user. `get_recipes` then drops such a recipe through its inner join.

## Model

| member | source | states |
|---|---|---|
| PyText.Strip | backend/app.py:59-60 | `strip()` leaves no whitespace at either end and never lengthens the string |
| PyText.Leading | backend/app.py:59 | the count of leading whitespace: every character before it is whitespace, the one at it is not |
| PyText.StripIsInfix | backend/app.py:59-60 | `strip()` returns the infix after the leading whitespace; everything cut off at the end is whitespace |
| PyText.StripIsInfixFront | backend/app.py:59-60 | the same, for a string that starts with whitespace |
| PyText.StripIsInfixBack | backend/app.py:59-60 | the same, for a string that starts with a non-space and ends with whitespace |
| PyText.LeadingOfPrefix | backend/app.py:59 | cutting a tail that starts after the first non-space does not change the leading count |
| PyText.StripEmptyIffBlank | backend/app.py:62 | `not s.strip()` holds exactly when `s` is all whitespace |
| PyText.StripIdempotent | backend/app.py:59-60 | stripping twice is stripping once |
| RecipeService.FindUser | backend/app.py:96-100 | the lookup by username returns an id holding that name, or None only when no such id exists |
| RecipeService.GetDefault | backend/app.py:59-60 | no contract: `data.get(k, "")` gives the default for an absent key, nothing for `null` and the string otherwise; characterised by BlankCredentialsRejected, NullCredentialsCrash and the `GetDefault` clauses of Login, RegisterAddsOneUser and AddRecipeInsertsOne |
| RecipeService.Get | backend/app.py:122-123 | no contract: `data.get(k)` gives nothing for an absent key and for `null`; characterised by EditByOwner, EditWithoutTitleRollsBack and AddRecipeInsertsOne |
| RecipeService.Register | backend/app.py:56-80 | a failed register leaves the tables as they were; well-formedness (unique, stripped, non-empty usernames; ids within the counters; counters within 64 bits) is kept; existing users are kept; recipes are untouched |
| RecipeService.Login | backend/app.py:84-113 | login succeeds exactly when both credentials are present and non-blank after stripping and a user with that name has a digest verifying the stripped password; the id returned is that user's; every error reply is 400 or 401; the reply is a 500 exactly when a credential is `null` |
| RecipeService.AddRecipe | backend/app.py:117-136 | a failed add, including an owner id that cannot be bound as a 64-bit integer, changes nothing; well-formedness is kept; users are untouched |
| RecipeService.EditRecipe | backend/app.py:181-209 | a failed edit, including a route id that cannot be bound as a 64-bit integer, changes nothing; well-formedness is kept; users are untouched |
| RecipeService.DeleteRecipe | backend/app.py:213-227 | a failed delete, including a route id that cannot be bound as a 64-bit integer, changes nothing; well-formedness is kept; users are untouched |
| RecipeService.Handle | backend/app.py:56-227 | no mutating handler breaks well-formedness, removes or rewrites a user, or lowers either AUTOINCREMENT counter |
| RecipeService.Run | backend/app.py:56-227 | any sequence of requests keeps well-formedness and every existing user, and never lowers either AUTOINCREMENT counter |
| RecipeService.Descending | backend/app.py:148 | `ORDER BY id DESC`: exactly the ids up to the counter, each once, strictly descending |
| RecipeService.MyRowsOf | backend/app.py:174-177 | one listing element per id, in the order of the ids, each with that recipe's columns |
| RecipeService.RowsOf | backend/app.py:152-160 | one joined listing element per id, in the order of the ids, each with that recipe's columns and its owner's username |
| RecipeService.MyListing | backend/app.py:168-177 | the owned ids listed down from a bound on all ids, with their columns, are exactly the owned recipes, in strictly descending id order |
| RecipeService.AllListing | backend/app.py:144-160 | the joined ids listed down from a bound on all ids, with their columns and owner names, are exactly the recipes whose owner is a user, in strictly descending id order |
| RecipeService.MyRecipes | backend/app.py:164-177 | the rows of `get_my_recipes(u)`'s query: exactly the recipes owned by `u`, with their stored columns, in strictly descending id order |
| RecipeService.MyRecipesReply | backend/app.py:164-177 | `get_my_recipes(u)` fails (500) exactly when `u` cannot be bound as a 64-bit integer, and otherwise answers with `MyRecipes` |
| RecipeService.AllRecipes | backend/app.py:140-160 | `get_recipes` lists exactly the recipes whose owner is a user, with that user's username, in strictly descending id order |
| RecipeStore.Store.constructor | backend/app.py:16-38 | `init_db` creates both tables empty, with no id issued |
| RecipeStore.Store.Register | backend/app.py:56-80 | the in-place register keeps the store valid and yields the new tables and reply of `RecipeService.Register` |
| RecipeStore.Store.AddRecipe | backend/app.py:117-136 | the in-place add keeps the store valid and yields the new tables and reply of `RecipeService.AddRecipe` |
| RecipeStore.Store.EditRecipe | backend/app.py:181-209 | the in-place edit keeps the store valid and yields the new tables and reply of `RecipeService.EditRecipe` |
| RecipeStore.Store.DeleteRecipe | backend/app.py:213-227 | the in-place delete keeps the store valid and yields the new tables and reply of `RecipeService.DeleteRecipe` |
| RecipeServiceProperties.BlankCredentialsRejected | backend/app.py:59-63 | a username or password that is blank after stripping (an absent key counts as "") gets 400 "Missing username or password" from register and from login; register leaves the tables unchanged |
| RecipeServiceProperties.NullCredentialsCrash | backend/app.py:59-60 | a `null` username or password makes `.strip()` raise: a 500 from register and login, with the tables unchanged |
| RecipeServiceProperties.DuplicateUsernameRejected | backend/app.py:69-78 | registering a taken username violates UNIQUE: 400 "User already exists" and no change; once the largest id is taken, the `SQLITE_FULL` error comes first and the generic handler answers 500 |
| RecipeServiceProperties.RegisterAddsOneUser | backend/app.py:59-75 | register succeeds exactly when both values are non-null and non-blank after stripping, the largest id is not yet taken and the name is free; it then adds one user under a never-used id, holding the stripped name and the digest of the stripped password, and returns that id; the count of users grows by one and recipes are unchanged |
| RecipeServiceProperties.UsernamesUnique | backend/app.py:24 | in well-formed tables no two ids share a username |
| RecipeServiceProperties.LoginFindsUser | backend/app.py:96-110 | a user whose digest was made from the stripped password logs in and gets their own id |
| RecipeServiceProperties.LoginAfterRegister | backend/app.py:66-75 | a login with the credentials just registered returns the id registration issued |
| RecipeServiceProperties.LoginAfterRegisterThenRequests | backend/app.py:96-110 | the same login still returns that id after any later requests |
| RecipeServiceProperties.LoginFailuresAlike | backend/app.py:100-108 | an unknown username and a wrong password both get 401 "Invalid credentials" |
| RecipeServiceProperties.AddRecipeInsertsOne | backend/app.py:120-136 | add succeeds exactly when title and description are non-null, the stripped title is non-empty, an owner is given that fits in 64 bits, and the largest id is not yet taken, whether or not the owner exists; it then inserts one recipe under a fresh id with the stripped title and description, the owner and the image or NULL; users are unchanged |
| RecipeServiceProperties.AddRecipeRejected | backend/app.py:125-126 | a blank title or a missing owner gets 400 "Missing title or owner_id" and inserts nothing |
| RecipeServiceProperties.LatestHeadsMyRecipes | backend/app.py:169 | the recipe with the highest id issued heads its owner's listing |
| RecipeServiceProperties.AddedRecipeListedFirst | backend/app.py:128-136 | the add of a titled recipe fails only for an owner id beyond 64 bits or a full counter; otherwise the recipe heads its owner's `get_my_recipes` listing, with the columns as stored |
| RecipeServiceProperties.MissingRecipeNotFound | backend/app.py:190-194 | edit and delete of a missing id answer 404 whoever asks, or 500 when the id cannot be bound as a 64-bit integer; nothing changes |
| RecipeServiceProperties.OtherOwnerForbidden | backend/app.py:195-196 | edit and delete by anyone but the stored owner answer 403; nothing changes |
| RecipeServiceProperties.EditByOwner | backend/app.py:198-209 | the owner's edit writes title and description as sent; it replaces the image only when one is sent and keeps it otherwise; every other recipe, the users and the counters are unchanged |
| RecipeServiceProperties.EditWithoutTitleRollsBack | backend/app.py:184 | the owner's edit without a title violates NOT NULL on `title`: a 500 and the tables as they were |
| RecipeServiceProperties.UnbindableIdsCrash | backend/app.py:128-217 | an owner id beyond 64 bits on an otherwise valid add, and a route id beyond 64 bits on edit, delete or `get_my_recipes`, cannot be bound: a 500 with the tables unchanged |
| RecipeServiceProperties.DeleteByOwner | backend/app.py:225-227 | the owner's delete removes exactly that recipe; users and both AUTOINCREMENT counters are unchanged; neither listing shows it afterwards |
| RecipeServiceProperties.ReachableWellFormed | backend/app.py:16-38 | every state reached from the empty tables of `init_db` is well formed |
| RecipeServiceProperties.IdsNeverReused | backend/app.py:21-37 | after any sequence of requests, a successful register or add returns an id above every id issued before, so it is held by no user or recipe that existed then |
| RecipeServiceProperties.DescendingEmpty | backend/app.py:148 | `ORDER BY id DESC` over no id up to the bound lists nothing |
| RecipeServiceProperties.DescendingSingleton | backend/app.py:148 | `ORDER BY id DESC` over a single id lists just that id |
| RecipeServiceProperties.OneRecipeListed | backend/app.py:144-149 | with a single recipe whose owner is a user, `/recipes` lists exactly that row |
| RecipeServiceProperties.NoRecipesNoListing | backend/app.py:144-150 | with no recipes, `/recipes` is empty |
| RecipeServiceProperties.AliceRegisters | backend/app.py:56-113 | the first registration on empty tables creates user 1 with the stripped name and the digest of the password; login then returns 1 |
| RecipeServiceProperties.SoupAdded | backend/app.py:117-160 | user 1's first recipe, sent without description or image, is stored as recipe 1 with description "" and image NULL, and `/recipes` lists exactly it under the owner's username |
| RecipeServiceProperties.AliceSession | backend/app.py:56-227 | from empty tables: register gives id 1, login returns 1, add gives recipe 1, `/recipes` shows it under alice with description "" and no image, delete by user 2 is refused with 403 and changes nothing, delete by alice succeeds and `/recipes` is empty |
| Escape.ReplaceAll | frontend/script.js:189-190 | no contract: `s.replace(/c/g, rep)`, whose replacements contain no `$`; characterised by ReplaceAllRemoves, ReplaceAllUnchanged, ReplaceAllKeeps, ReplaceAllSingle, ReplaceAllCons and ReplaceAllConcat |
| Escape.ReplaceAllRemoves | frontend/script.js:189-190 | `replace(/c/g, rep)` leaves no `c` when `rep` has none |
| Escape.ReplaceAllUnchanged | frontend/script.js:189-190 | `replace(/c/g, rep)` is the identity on a string without `c` |
| Escape.ReplaceAllKeeps | frontend/script.js:189-190 | a character that is neither `c` nor in `rep` is in the result exactly when it is in the input |
| Escape.ReplaceAllSingle | frontend/script.js:189-190 | replacement on one character |
| Escape.ReplaceAllCons | frontend/script.js:189-190 | replacement on a string with a known first character |
| Escape.ReplaceAllConcat | frontend/script.js:189-190 | replacement distributes over concatenation |
| Escape.EscapeHtml | frontend/script.js:190 | a falsy input gives ""; the output holds no `<` and no `>` |
| Escape.HtmlChain | frontend/script.js:190 | no contract: the `&`, `<`, `>` replacements in source order; characterised by HtmlChainConcat, HtmlChainChar and HtmlChainIsPerChar |
| Escape.HtmlChainConcat | frontend/script.js:190 | the replacement chain of `escapeHtml` distributes over concatenation |
| Escape.HtmlChainChar | frontend/script.js:190 | on one character the chain gives that character's entity |
| Escape.HtmlChainIsPerChar | frontend/script.js:190 | because `&` is replaced first, the chain equals a one-pass per-character escaper |
| Escape.HtmlEscapeEachEntities | frontend/script.js:190 | the one-pass escaper writes `&` only as the start of `&amp;`, `&lt;` or `&gt;` |
| Escape.EscapeHtmlAmpersands | frontend/script.js:190 | every `&` in the output of `escapeHtml` begins `&amp;`, `&lt;` or `&gt;`, so no inserted entity is escaped again |
| Escape.EscapeHtmlIdentityOnSafe | frontend/script.js:190 | `escapeHtml` is the identity on text without `&`, `<` and `>` |
| Escape.UnescapeHtmlChar | frontend/script.js:190 | decoding one character's entity, followed by anything, gives back that character |
| Escape.HtmlEscapeEachRoundTrip | frontend/script.js:190 | decoding the three entities undoes the one-pass escaper |
| Escape.EscapeHtmlRoundTrip | frontend/script.js:190 | decoding the three entities `&amp;`, `&lt;` and `&gt;` in the output of `escapeHtml` gives back the input |
| Escape.EscapeJs | frontend/script.js:189 | a falsy input gives ""; the output holds no line feed |
| Escape.JsChain | frontend/script.js:189 | no contract: the quote and line-feed replacements in source order; characterised by JsChainIsPerChar |
| Escape.JsChainIsPerChar | frontend/script.js:189 | the replacement chain of `escapeJs` equals a one-pass per-character escaper |
| Escape.QuotesBackslashedConcat | frontend/script.js:189 | backslashed quotes stay backslashed under concatenation |
| Escape.JsEscapeEachQuotes | frontend/script.js:189 | the one-pass escaper puts a backslash before every quote |
| Escape.EscapeJsQuotes | frontend/script.js:189 | every `'` in the output of `escapeJs` directly follows a backslash |
| Escape.EscapeJsIdentityOnSafe | frontend/script.js:189 | `escapeJs` is the identity on text without `'` and line feeds |
| Escape.EscapeJsLeavesBackslashes | frontend/script.js:189 | the input `\'` becomes `\\'`; a JavaScript engine reads its `\\` as one backslash and is then stopped by the bare `'`, so the output is not one single-quoted literal; `\n` (backslash, n) and a line feed escape alike |
| Escape.EscapeJsCorrected | frontend/script.js:189 | the corrected escaper: a falsy input gives ""; the output holds no line feed and no carriage return |
| Escape.JsCorrectedChainConcat | frontend/script.js:189 | the corrected chain distributes over concatenation |
| Escape.JsCorrectedChainChar | frontend/script.js:189 | on one character the corrected chain gives that character's escape |
| Escape.JsCorrectedChainIsPerChar | frontend/script.js:189 | because the backslash is replaced first, the corrected chain equals a one-pass per-character escaper |
| Escape.JsCorrectedEachRoundTrip | frontend/script.js:189 | a JavaScript engine reads the one-pass corrected output back as the input |
| Escape.EscapeJsCorrectedRoundTrip | frontend/script.js:189 | placed between single quotes, the corrected escaper's output is one literal whose value is the input |

## Left out

- Flask routing, `request.json`, `jsonify`, CORS and `render_template` are not modelled. A handler's JSON body is a set of `Field` arguments, and its response is a `Reply`.
- A request body that is not a JSON object is not modelled. Neither are JSON values of other types than string and null in the string fields (numbers, lists), which make `.strip()` raise or SQLite coerce them.
- `add_recipe`'s `owner_id` is modelled as an optional integer. Non-integer JSON values that SQLite would store anyway are not modelled.
- Connections, the WAL pragma, timeouts, the `before_first_request` hook and commit/rollback mechanics are not modelled. A handler either completes (commit) or replies `Crash` with the tables unchanged (rollback).
- The generic `except Exception` 500 paths of `register` and `login` are modelled only for the `SQLITE_FULL` error of a full AUTOINCREMENT counter. Other database failures, such as a locked file, are not modelled.
- The foreign key on `recipes.owner_id` is not modelled as a constraint. SQLite leaves foreign keys unenforced unless a pragma turns them on, and `init_db` does not.
- `generate_password_hash` and `check_password_hash` are function values of a `Hasher`. Their randomness is the `salt` argument. Only the verify-after-hash property is assumed, as the requires `Sound(h)`.
- The route parameters of `edit_recipe`, `delete_recipe` and `get_my_recipes` are `nat`s. Flask's `<int:…>` converter matches only non-negative integers. Lemmas about the stored owner's own edit or delete therefore require that owner id to be non-negative.
- Concurrent requests are not modelled. The handlers run one after another, which is what the database's locking gives.
- backend/check_db.py is not part of this model: it only prints rows.
- The rest of frontend/script.js (DOM updates, `fetch`, `FileReader`, prompts, `renderRecipes`, the session variable) is not part of this model.
- Escape.UnescapeHtml decodes only the three entities `escapeHtml` writes. The HTML parser behind `innerHTML` also turns CR and CRLF into LF and drops NUL characters in text; that is not modelled, so Escape.EscapeHtmlRoundTrip says nothing about how a title with a carriage return or a NUL is displayed.
- Escape.ReadJsString does not read numeric escapes (`\x`, `\u`, octal) or line continuations (a backslash before a line feed, a carriage return, U+2028 or U+2029). It treats them as unreadable; the corrected escaper never produces them. A None from it therefore means either a broken literal or an escape it does not read, and Escape.EscapeJsLeavesBackslashes states separately that its None comes from the bare quote.
- Escape.EscapeJs: the model checks the output only as the body of a JavaScript string literal. The literal sits inside a double-quoted `onclick` attribute at frontend/script.js:173, and a `"` in a title closes that attribute; that HTML context is not modelled.

## Findings

| source | as written | input that shows it | evidently intended | confidence | as-written member | corrected member |
|---|---|---|---|---|---|---|
| frontend/script.js:189 | `escapeJs` escapes `'` and line feeds but not the backslash | a title `\'` becomes `\\'`; inside `'…'` the engine reads an escaped backslash, and the quote ends the literal, so a title `\');alert(1);//` runs code from the Edit button; a title `\n` (backslash, n) escapes the same as a line feed | the output, placed between single quotes, reads back as the input: escape `\` first, then `'`, line feed and carriage return | not executed | Escape.EscapeJsLeavesBackslashes | Escape.EscapeJsCorrectedRoundTrip |
