/**
 * The recipe table as a value: the dictionary from id to recipe together
 * with the id counter, the dictionary primitives the handlers call, one
 * transition function per mutating handler and the read-only queries.
 *
 * Each handler is one sequential step; the store class in module `Store`
 * performs these steps in place.
 */
module RecipeTable {
  import opened Text
  import opened Recipes

  /** What a handler answers, independent of the HTTP encoding. */
  datatype Outcome =
    | Ok(recipe: Recipe)        // 200 with the recipe as body
    | Created(recipe: Recipe)   // 201 with Location /recipes/{recipe.id}
    | NotFound                  // 404
    | ServerError               // explicit 500
    | KeyNotFoundThrown         // the dictionary indexer threw; the handler did not return

  /** The shared state: the dictionary and the last id handed out. */
  datatype Table = Table(recipes: map<int, Recipe>, nextId: int)

  /** A handler's answer and the state it leaves behind. */
  datatype Transition = Transition(outcome: Outcome, after: Table)

  /** The state at start-up: no recipes, counter at 0. */
  const Initial: Table := Table(map[], 0)

  /**
   * The table invariant: the counter is not negative, every key is an id
   * that was already handed out, and every recipe is stored under its own id.
   */
  ghost predicate Inv(t: Table)
  {
    && 0 <= t.nextId
    && forall k :: k in t.recipes ==> 1 <= k <= t.nextId && t.recipes[k].id == k
  }

  /** Whether `id` was handed out already (the counter pre-increments from 0). */
  ghost predicate Issued(t: Table, id: int)
  {
    1 <= id <= t.nextId
  }

  // ---------------------------------------------------------------------
  // The dictionary primitives, in their sequential meaning

  /** Result of a `Try…` call: whether it took effect, and the dictionary after. */
  datatype Attempt = Attempt(succeeded: bool, recipes: map<int, Recipe>)

  /** `TryAdd`: inserts only when the key is absent. */
  function TryAdd(m: map<int, Recipe>, key: int, value: Recipe): Attempt
  {
    if key in m then Attempt(false, m) else Attempt(true, m[key := value])
  }

  /** `TryRemove`: removes the key when present and hands back its value. */
  function TryRemove(m: map<int, Recipe>, key: int): (Option<Recipe>, map<int, Recipe>)
  {
    if key in m then (Some(m[key]), m - {key}) else (None, m)
  }

  /** `TryUpdate`: replaces the value only while it still equals `comparand`. */
  function TryUpdate(m: map<int, Recipe>, key: int, value: Recipe, comparand: Recipe): Attempt
  {
    if key in m && m[key] == comparand then Attempt(true, m[key := value]) else Attempt(false, m)
  }

  // ---------------------------------------------------------------------
  // The mutating handlers

  /**
   * POST /recipes: pre-increment the counter, build the recipe from the body
   * with the new id (the body's own id is ignored), insert it. The 500 branch
   * is taken only if the new id is already a key, which the invariant rules out.
   */
  function CreateStep(t: Table, dto: RecipeDto): (r: Transition)
    ensures r.after.nextId == t.nextId + 1
    ensures 0 <= t.nextId ==> forall id :: Issued(r.after, id) <==> Issued(t, id) || id == r.after.nextId
    ensures r.outcome.Created? || r.outcome == ServerError
    ensures r.outcome == ServerError <==> t.nextId + 1 in t.recipes
    ensures r.outcome == ServerError ==> r.after.recipes == t.recipes
    ensures r.outcome.Created? ==>
      && r.outcome.recipe == Recipe(t.nextId + 1, dto.title, dto.ingredients, dto.description, dto.imageUrl)
      && r.after.recipes == t.recipes[t.nextId + 1 := r.outcome.recipe]
    ensures Inv(t) ==> r.outcome.Created? && !Issued(t, r.after.nextId) && Inv(r.after)
  {
    var newId := t.nextId + 1;
    var recipe := FromDto(newId, dto);
    var added := TryAdd(t.recipes, newId, recipe);
    if !added.succeeded then Transition(ServerError, Table(t.recipes, newId))
    else Transition(Created(recipe), Table(added.recipes, newId))
  }

  /**
   * DELETE /recipes/{id}: remove the entry and answer it, or NotFound.
   * Nothing but that one key changes.
   */
  function DeleteStep(t: Table, id: int): (r: Transition)
    ensures r.after.nextId == t.nextId
    ensures id in t.recipes ==> r.outcome == Ok(t.recipes[id]) && r.after.recipes == t.recipes - {id}
    ensures id !in t.recipes ==> r.outcome == NotFound && r.after == t
    ensures Inv(t) ==> Inv(r.after)
  {
    var (removed, rest) := TryRemove(t.recipes, id);
    if removed.Some? then Transition(Ok(removed.value), Table(rest, t.nextId))
    else Transition(NotFound, t)
  }

  /**
   * PUT /recipes/{id}: build the replacement with the path id, read the current
   * value with the indexer, then compare-and-swap against it. On an absent key
   * the indexer throws before anything changes; on a present key the swap
   * compares against the value just read, so it succeeds and the NotFound
   * answer is never produced.
   */
  function UpdateStep(t: Table, id: int, dto: RecipeDto): (r: Transition)
    ensures r.after.nextId == t.nextId
    ensures r.outcome != NotFound
    ensures r.after.recipes.Keys == t.recipes.Keys
    ensures id !in t.recipes ==> r.outcome == KeyNotFoundThrown && r.after == t
    ensures id in t.recipes ==>
      && r.outcome == Ok(Recipe(id, dto.title, dto.ingredients, dto.description, dto.imageUrl))
      && r.after.recipes == t.recipes[id := r.outcome.recipe]
    ensures Inv(t) ==> Inv(r.after)
  {
    var recipe := FromDto(id, dto);
    if id !in t.recipes then Transition(KeyNotFoundThrown, t)
    else
      var swap := TryUpdate(t.recipes, id, recipe, t.recipes[id]);
      if swap.succeeded then Transition(Ok(recipe), Table(swap.recipes, t.nextId))
      else Transition(NotFound, t)
  }

  // ---------------------------------------------------------------------
  // The read-only handlers (results are sets: enumeration order is not modelled)

  /** GET /recipes: every stored recipe (the dictionary's `Values`). */
  function List(m: map<int, Recipe>): (r: set<Recipe>)
    ensures forall k :: k in m ==> m[k] in r
    ensures forall x :: x in r ==> exists k :: k in m && m[k] == x
  {
    set k | k in m :: m[k]
  }

  /** GET /recipes/filterByTitle/{filter}. */
  function FilterByTitle(m: map<int, Recipe>, filter: string): (r: set<Recipe>)
    ensures r <= List(m)
    ensures filter == [] ==> r == List(m)
  {
    set k | k in m && ContainsIgnoreCase(m[k].title, filter) :: m[k]
  }

  /** The `Any` of the ingredient filter: some ingredient's name contains `name`. */
  predicate HasIngredientLike(x: Recipe, name: string)
    ensures name == [] ==> (HasIngredientLike(x, name) <==> x.ingredients != [])
  {
    assert x.ingredients != [] ==> x.ingredients[0] in x.ingredients;
    exists ing :: ing in x.ingredients && ContainsIgnoreCase(ing.name, name)
  }

  /** GET /recipes/filterByIngredient/{ingredient}. */
  function FilterByIngredient(m: map<int, Recipe>, ingredient: string): (r: set<Recipe>)
    ensures r <= List(m)
    ensures forall x :: x in r ==> x.ingredients != []
    ensures ingredient == [] ==> r == set k | k in m && m[k].ingredients != [] :: m[k]
  {
    set k | k in m && HasIngredientLike(m[k], ingredient) :: m[k]
  }

  /**
   * The title filter answers exactly the stored recipes whose title matches
   * the filter case-insensitively at some position.
   */
  lemma FilterByTitleExactly(m: map<int, Recipe>, filter: string, x: Recipe)
    ensures x in FilterByTitle(m, filter) <==>
      (exists k :: k in m && m[k] == x) && exists i :: MatchesAt(x.title, filter, i)
  {
    ContainsIgnoreCaseIff(x.title, filter);
    StoredIffValue(m, x);
  }

  /**
   * The ingredient filter answers exactly the stored recipes with at least one
   * ingredient whose name matches case-insensitively at some position.
   */
  lemma FilterByIngredientExactly(m: map<int, Recipe>, ingredient: string, x: Recipe)
    ensures x in FilterByIngredient(m, ingredient) <==>
      && (exists k :: k in m && m[k] == x)
      && exists n, i :: 0 <= n < |x.ingredients| && MatchesAt(x.ingredients[n].name, ingredient, i)
  {
    forall n | 0 <= n < |x.ingredients| {
      ContainsIgnoreCaseIff(x.ingredients[n].name, ingredient);
    }
    if HasIngredientLike(x, ingredient) {
      var ing :| ing in x.ingredients && ContainsIgnoreCase(ing.name, ingredient);
      var n :| 0 <= n < |x.ingredients| && x.ingredients[n] == ing;
      var i :| MatchesAt(x.ingredients[n].name, ingredient, i);
    }
    if n, i :| 0 <= n < |x.ingredients| && MatchesAt(x.ingredients[n].name, ingredient, i) {
      assert x.ingredients[n] in x.ingredients;
    }
    StoredIffValue(m, x);
  }

  /** A recipe is listed exactly when it is stored under some key. */
  lemma StoredIffValue(m: map<int, Recipe>, x: Recipe)
    ensures x in List(m) <==> exists k :: k in m && m[k] == x
  {
  }

  /** Under the invariant, every listed recipe is the one stored under its own id. */
  lemma ListedUnderOwnId(t: Table, x: Recipe)
    requires Inv(t)
    ensures x in List(t.recipes) <==> x.id in t.recipes && t.recipes[x.id] == x
  {
    StoredIffValue(t.recipes, x);
  }

  /** Under the invariant no two keys hold the same recipe. */
  lemma DistinctKeysDistinctRecipes(t: Table, j: int, k: int)
    requires Inv(t) && j in t.recipes && k in t.recipes && j != k
    ensures t.recipes[j] != t.recipes[k]
  {
  }

  /** Taking out key `n` takes exactly its recipe out of the list, when no other key holds it. */
  lemma ListWithout(m: map<int, Recipe>, n: int)
    requires n in m
    requires forall k :: k in m && k != n ==> m[k] != m[n]
    ensures List(m) == List(m - {n}) + {m[n]}
    ensures m[n] !in List(m - {n})
  {
    var rest := m - {n};
    forall x ensures x in List(m) <==> x in List(rest) || x == m[n] {
      if j :| j in m && m[j] == x {
        assert j != n ==> j in rest && rest[j] == x;
      }
    }
  }

  /**
   * Under the invariant the list loses nothing: it has exactly one recipe per
   * stored key.
   */
  lemma {:induction false} ListCountsEntries(t: Table)
    requires Inv(t)
    ensures |List(t.recipes)| == |t.recipes|
    decreases t.nextId
  {
    var n := t.nextId;
    var rest := Table(t.recipes - {n}, n - 1);
    if n == 0 {
      forall k ensures k !in t.recipes.Keys {
        if k in t.recipes {
          assert false;
        }
      }
      assert t.recipes.Keys == {};
      assert List(t.recipes) == {};
    } else {
      ListCountsEntries(rest);
      if n in t.recipes {
        ListWithout(t.recipes, n);
        assert t.recipes.Keys == rest.recipes.Keys + {n};
      } else {
        assert t.recipes == rest.recipes;
      }
    }
  }

  /** After a POST the created recipe is listed, along with everything listed before. */
  lemma CreatedIsListed(t: Table, dto: RecipeDto)
    requires Inv(t)
    ensures var r := CreateStep(t, dto);
      r.outcome.Created? && List(r.after.recipes) == List(t.recipes) + {r.outcome.recipe}
  {
    var r := CreateStep(t, dto);
    var newId := t.nextId + 1;
    assert newId !in t.recipes;
    forall x ensures x in List(r.after.recipes) <==> x in List(t.recipes) || x == r.outcome.recipe {
      StoredIffValue(t.recipes, x);
      StoredIffValue(r.after.recipes, x);
      if k :| k in r.after.recipes && r.after.recipes[k] == x {
        assert k != newId ==> k in t.recipes && t.recipes[k] == x;
      }
      if k :| k in t.recipes && t.recipes[k] == x {
        assert k != newId && r.after.recipes[k] == x;
      }
      assert r.after.recipes[newId] == r.outcome.recipe;
    }
  }

  /**
   * After a PUT on a stored id the list is the previous list with the replaced
   * recipe swapped for the new one; every other recipe stays listed.
   */
  lemma UpdatedIsListed(t: Table, id: int, dto: RecipeDto)
    requires Inv(t) && id in t.recipes
    ensures var r := UpdateStep(t, id, dto);
      && List(r.after.recipes) == List(t.recipes) - {t.recipes[id]} + {r.outcome.recipe}
      && r.outcome.recipe in List(r.after.recipes)
      && (t.recipes[id] != r.outcome.recipe ==> t.recipes[id] !in List(r.after.recipes))
  {
    var r := UpdateStep(t, id, dto);
    forall x ensures x in List(r.after.recipes) <==> x in List(t.recipes) - {t.recipes[id]} + {r.outcome.recipe} {
      StoredIffValue(t.recipes, x);
      StoredIffValue(r.after.recipes, x);
      ListedUnderOwnId(t, x);
      ListedUnderOwnId(r.after, x);
    }
  }
}
