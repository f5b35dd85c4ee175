# Recipe API — a verified model of the in-memory recipe table

The service is a minimal ASP.NET web API over one shared, in-memory table of
recipes. A `ConcurrentDictionary<int, Recipe>` maps ids to recipes. An `int`
counter starts at 0 and is pre-incremented for every POST. The handlers are:

- **POST /recipes** builds a recipe from the request body. The recipe gets the
  new counter value as its id, and the body's own id is ignored. The handler
  inserts it with `TryAdd` and answers 201. If the key were already present it
  would answer 500.
- **DELETE /recipes/{id}** removes the entry with `TryRemove` and answers it,
  or answers 404.
- **PUT /recipes/{id}** builds a recipe whose id is the path id. It reads the
  current value with the dictionary indexer and swaps with
  `TryUpdate(id, recipe, current)`. It answers the new recipe, or 404 when the
  swap fails.
- **GET /recipes** answers all values.
- **GET /recipes/filterByTitle/{filter}** and
  **GET /recipes/filterByIngredient/{ingredient}** answer the recipes whose
  title, or some ingredient's name, contains the argument under ordinal
  case-insensitive comparison.

The model has five modules:

- `Text` (text.dfy): ordinal case-insensitive `Contains`. Case folding is
  ASCII upper-casing of both strings, followed by a recursive substring search.
  Both are proved equal to reference definitions: an occurrence at some index,
  and a character-wise folded match at some index.
- `Recipes` (recipes.dfy): the `Recipe`, `Ingredients` and `RecipeDto` shapes
  as datatypes.
- `RecipeTable` (table.dfy): the table as a value, meaning the dictionary plus
  the counter. It holds the table invariant, the three dictionary primitives in
  their sequential meaning, one transition function per mutating handler, and
  the three queries as set comprehensions. `Recipes.FromDto` stands for the two object
  initialisers that build a `Recipe` from a body and an id (Program.cs:17-24
  and 60-67). `TryAdd`, `TryRemove` and `TryUpdate` stand for the dictionary
  calls at Program.cs:25, 38 and 68. These four are the plain building blocks
  of the transitions and carry no contract of their own. What they do is
  stated by the contracts of `CreateStep`, `DeleteStep` and `UpdateStep`.
- `History` (history.dfy): sequences of requests served one after another, and
  what holds across them.
- `Store` (store.dfy): the class `RecipeStore`. Its two fields, the dictionary
  and the counter, are updated in place by `Create`, `Delete` and `Update`.
  Each method is proved equal to the matching transition and keeps the
  invariant.

The table invariant `Inv` says three things. The counter is not negative.
Every key lies between 1 and the counter. Every recipe is stored under its own
id. From `Inv` it follows that the 500 branch of POST can never be taken when
requests are served one at a time. The 404 answer of PUT is never produced
either, but that does not depend on `Inv`. Requests are served one at a time,
so nothing changes between the indexer read and the swap, and the swap
compares against the value that was just read.

The NotFound answer of PUT (Program.cs:72) suggests that a 404 was meant for
an absent id. The code does something else. The argument `recipes[id]` is
evaluated before `TryUpdate` is called (Program.cs:68), and the dictionary
indexer throws `KeyNotFoundException` for an absent key, so the handler never
returns for an absent id. The model follows the code: it answers
`KeyNotFoundThrown` and leaves the table unchanged (`UpdateStep`,
`RecipeStore.Update`). The NotFound branch of PUT can only be reached through a
concurrent change between the read and the swap, and that is not modelled.

## Model

| member | source | states |
|---|---|---|
| `Text.Upper` | Program.cs:48 | a lower-case ASCII letter folds to its own capital (32 code points lower); every other character is unchanged; the result is never a lower-case ASCII letter |
| `Text.UpperAgree` | Program.cs:48 | two characters fold alike exactly when they are equal or are the same ASCII letter in different case (both directions) |
| `Text.Fold` | Program.cs:48 | folding keeps the length and upper-cases each character in place |
| `Text.Contains` | Program.cs:48 | the empty needle is always found; a found needle is no longer than the haystack |
| `Text.ContainsIffOccurs` | Program.cs:48 | the search answers true exactly when the needle occurs at some index of the haystack (both directions) |
| `Text.ContainsIgnoreCase` | Program.cs:48 | the empty filter matches every string; a match is never longer than the string |
| `Text.ContainsIgnoreCaseIff` | Program.cs:48 | the case-insensitive search answers true exactly when, at some index, every needle character equals the haystack character after folding |
| `Text.FoldIdempotent` | Program.cs:48 | folding twice is folding once |
| `Text.IgnoreCaseIsCaseBlind` | Program.cs:54 | folding the haystack or the needle beforehand never changes the answer |
| `RecipeTable.CreateStep` | Program.cs:13-33 | the counter goes up by exactly one; the created recipe carries the body's title, ingredients, description and image URL, with the new id instead of the body's; it is stored under that id and all other entries stay; it answers 500 exactly when the new id is already a key, and then leaves the dictionary unchanged; under `Inv` the answer is always Created, the id was never issued before, and `Inv` still holds |
| `RecipeTable.DeleteStep` | Program.cs:36-43 | a stored id is removed, alone, and its recipe answered; an absent id answers NotFound and leaves the table unchanged; the counter never moves; `Inv` is kept |
| `RecipeTable.UpdateStep` | Program.cs:58-73 | a stored id gets the body's recipe with the path id and it is answered; no other entry changes and the key set stays the same; an absent id throws at the indexer read with the table unchanged; NotFound is never answered; `Inv` is kept |
| `RecipeTable.List` | Program.cs:11 | every stored recipe is answered, and every answered recipe is stored under some key |
| `RecipeTable.FilterByTitle` | Program.cs:46-50 | the answer is a subset of the list; the empty filter answers the whole list |
| `RecipeTable.HasIngredientLike` | Program.cs:54 | with the empty name, a recipe matches exactly when it has at least one ingredient |
| `RecipeTable.FilterByIngredient` | Program.cs:52-56 | the answer is a subset of the list; a recipe with no ingredients never matches; the empty name answers every recipe that has an ingredient |
| `RecipeTable.FilterByTitleExactly` | Program.cs:48 | a recipe is answered exactly when it is stored under some key and its title matches the filter case-insensitively at some index |
| `RecipeTable.FilterByIngredientExactly` | Program.cs:54 | a recipe is answered exactly when it is stored and one of its ingredients' names matches case-insensitively at some index |
| `RecipeTable.StoredIffValue` | Program.cs:11 | a recipe is listed exactly when it is stored under some key |
| `RecipeTable.ListedUnderOwnId` | Program.cs:11 | under `Inv`, a recipe is listed exactly when it is the one stored under its own id |
| `RecipeTable.DistinctKeysDistinctRecipes` | Program.cs:11 | under `Inv`, two different keys never hold the same recipe |
| `RecipeTable.ListCountsEntries` | Program.cs:11 | under `Inv`, the list has exactly as many recipes as the dictionary has entries, so none is lost |
| `RecipeTable.CreatedIsListed` | Program.cs:11-33 | under `Inv`, after a POST the list is the previous list plus the created recipe |
| `RecipeTable.UpdatedIsListed` | Program.cs:58-73 | under `Inv`, after a PUT on a stored id the list is the previous list with the replaced recipe taken out and the new one added, so every other recipe stays listed; the new recipe is listed, and the replaced one is gone whenever it differs from the new one |
| `History.Replay` | Program.cs:13-73 | serving a sequence of requests gives one answer per request and never lowers the counter |
| `History.ReplayKeepsInv` | Program.cs:13-73 | every sequence of requests keeps `Inv` |
| `History.CounterCountsPosts` | Program.cs:15 | after any sequence of requests the counter has grown by exactly the number of POSTs |
| `History.CreatedIdsFresh` | Program.cs:15-19 | every id created in a run lies above the starting counter and at most the final counter; created ids are strictly increasing |
| `History.NoIdReissued` | Program.cs:15 | no id created in a run was issued before the run started, so a deleted id is never handed out again |
| `History.RetiredStaysRetired` | Program.cs:36-73 | an issued id that is no longer stored stays absent; every later DELETE of it answers NotFound, every later PUT of it throws, and no later answer carries a recipe with that id |
| `History.DeleteSucceedsOnce` | Program.cs:36-43 | DELETE of a stored id answers the stored recipe; every later DELETE of that id answers NotFound |
| `History.PastaScenario` | Program.cs:13-56 | on a fresh table, POST of "Pasta" with ingredient "Flour" is created with id 1; the ingredient filter "flour" finds it; DELETE 1 answers it; the list is then empty |
| `Store.RecipeStore.constructor` | Program.cs:6-9 | start-up: the dictionary is empty and the counter is 0 |
| `Store.RecipeStore.Create` | Program.cs:13-33 | in place: the counter goes up by one to an id never issued before; the recipe built from the body with that id is stored and answered as Created; all other entries stay; `Valid` is kept |
| `Store.RecipeStore.Delete` | Program.cs:36-43 | in place: a stored id is removed and its recipe answered; an absent id answers NotFound with nothing changed; the counter stays; `Valid` is kept |
| `Store.RecipeStore.Update` | Program.cs:58-73 | in place: a stored id gets the new recipe with the path id, which is answered; the key set and the counter stay; an absent id throws at the indexer with nothing changed; `Valid` is kept |

## Left out

- HTTP routing, the host builder and `app.Run()` are not modelled (Program.cs:3-4, 75). Neither is the constant `GET /` greeting (Program.cs:7). Status-code results become the `Outcome` datatype.
- The text of the `Location` header (`/recipes/{id}`) is not built. `Created` carries the recipe, whose id determines it.
- JSON (de)serialisation and path-parameter binding belong to the web runtime and are not modelled. A body's `ImageUrl` is `Option<string>` in both `Recipe` and `RecipeDto`, because the binder may leave it null although the DTO declares it non-nullable.
- What the runtime does with the escaped `KeyNotFoundException` of PUT (an error response) is not modelled. The model stops at `KeyNotFoundThrown`.
- Concurrency is not modelled. This covers the atomicity of `ConcurrentDictionary` and `Interlocked.Increment`, and the interleaving between the indexer read and `TryUpdate` in PUT. Only under such an interleaving can PUT answer NotFound. Every request is one sequential step.
- Case folding is ASCII-only. The Unicode rules of `StringComparison.OrdinalIgnoreCase` for non-ASCII letters are not modelled.
- The counter is an unbounded integer. Wrap-around of `Interlocked.Increment` at `int.MaxValue` is not modelled, so ids never repeat in the model. Only after such a wrap could POST meet an existing key and answer 500.
- A null `Ingredients` list (nullable on `Recipe`, Program.cs:85) is not modelled, nor are null titles or names. Ingredients are a non-null sequence, as the DTO declares.
- `Recipe` and `Ingredients` are mutable classes in the source, and a stored recipe shares its ingredient list with the request body. The model treats them as immutable values. No handler mutates a stored recipe's fields, and `TryUpdate`'s comparand is the very object just read, so value equality and reference equality agree here.
- `List`, `FilterByTitle` and `FilterByIngredient` answer sets, not enumerations, so their order is not modelled. Duplicates are not lost: under `Inv` two stored recipes always differ in their id, so the set has one recipe per entry (`DistinctKeysDistinctRecipes`, `ListCountsEntries`).
